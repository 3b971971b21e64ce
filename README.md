# Alpheus host driver: command encoding and request/response correlation

The Alpheus driver (`cli/index.js`) talks to a timing controller over a serial link using
tagged frames. This project models its protocol engine in Dafny and proves what it promises:

- **Command encoding.** Each public method maps to a fixed tag and argument list. `updateSlot`
  splits `delay` and `pulse` into little-endian bytes with `& 0xff` and `(v >> 8) & 0xff`.
  `js_bits.dfy` models the JavaScript operators: operands go through ToInt32 / ToUint32 (ECMA-262,
  sections 7.1.6 and 7.1.7), `&` is a bit-by-bit AND of the low 32 bits, and `>>` is sign-propagating
  division by a power of two. The byte lemmas hold for every integral argument, negative ones too.
  `commands.dfy` holds the tags and the (tag, args) pair of each method.
- **Correlation.** `sendTag` encodes and writes a packet. A failed write rejects the returned
  Promise with the write error. A successful write registers one `once('data')` listener, and the
  next frame settles the Promise: tag 1 (Done) resolves it, any other tag rejects it with the frame.
  `protocol.dfy` states this as a state machine over values: the bytes fed to the decoder since its
  last reset, a log of what was done to codec and port, the registered observers, and one outcome
  per command issued.
  `driver.dfy` has the class `Alpheus`, whose methods update those same fields in place. Each method
  is proved to match the state machine step by step. `DeliverFrame` runs the listeners in a loop,
  as the EventEmitter does.
- **Reset ordering.** `reset` clears the decoder before the Reset frame is encoded and written.

The frame encoder is a parameter of the driver (`Encoder`), and the model never looks inside it.
Each write outcome (success, or failure with an error) is an input to the call that writes. The
codec's frame emission is a step that takes the decoded frame.

Three behaviours of the code that a reader might not expect, all modelled as written:

- A link-level `'error'` event never settles a pending command: the driver hands it only to the
  user callback (`cli/index.js:17`), so the pending Promise stays pending. No step of the model
  settles an outcome on a link error.
- Nothing stops a second command from being written before the first is answered. Both `once`
  listeners then fire on the next frame (`cli/index.js:56`), and `OverlappingCommandsShareAnswer`
  proves that both outcomes get the same answer.
- `reset` discards only the bytes the decoder holds (`cli/index.js:25`, `StaleBytesDiscarded`). A
  complete frame emitted while no observer is registered is ignored (`UnsolicitedFrameIgnored`). One
  emitted after the reset's write completes is taken as the reset's answer (`FirstFrameDecides`).

## Model

| member | source | states |
|---|---|---|
| JsBits.ToUint32 | cli/index.js:42-45 | the 32-bit unsigned form of an operand is in [0, 2^32) and congruent to it modulo 2^32 |
| JsBits.ToInt32 | cli/index.js:42-45 | the 32-bit signed form of an operand is in [-2^31, 2^31) and congruent to it modulo 2^32 |
| JsBits.BitAnd | cli/index.js:42-45 | `a & b` is a signed 32-bit value, and with a mask below 2^31 it lies between 0 and the mask |
| JsBits.ShiftRight | cli/index.js:43-45 | `a >> b` is a signed 32-bit value with the sign of ToInt32(a), and a shift by a multiple of 32 returns ToInt32(a) |
| JsBits.AndBits | cli/index.js:42-45 | the AND of the low `width` bits is below 2^width and never exceeds the mask |
| JsBits.AndLowMask | cli/index.js:42-45 | ANDing with k one-bits keeps exactly the operand modulo 2^k |
| JsBits.MaskByte | cli/index.js:42-44 | `v & 0xff` equals v mod 256 for every integer v |
| JsBits.ShiftByte | cli/index.js:43-45 | `(v >> 8)` mod 256 equals floor(v / 256) mod 256 for every integer v |
| Commands.LoByte | cli/index.js:42-44 | the low byte is a byte and equals v mod 256 |
| Commands.HiByte | cli/index.js:43-45 | the high byte is a byte and equals floor(v / 256) mod 256 |
| Commands.SlotArgs | cli/index.js:41-46 | five arguments: the slot first, then four bytes, with low + 256 * high equal to delay (and to pulse) mod 65536 |
| Commands.Encode | cli/index.js:4-10 | no command is sent under tag 1 (Done) or tag 2 (Error), and every tag is in 0..6 |
| Commands.EncodeLayout | cli/index.js:24-46 | reset sends (0, []), start (6, []), updateClock (3, [clockSource, prescaler]), updateTrigger (4, [triggerConfig]), updateSlot (5, [slot, delay%256, delay/256%256, pulse%256, pulse/256%256]) |
| Commands.TagIdentifiesCommand | cli/index.js:4-10 | two commands with the same tag are the same kind of command |
| Commands.LittleEndianPair | cli/index.js:42-45 | low + 256 * high equals v mod 65536 for every integer v |
| Commands.ByteSplitRoundTrip | cli/index.js:42-45 | for every v in [0, 65535], high * 256 + low == v |
| Commands.ByteSplitWraps | cli/index.js:42-45 | the two bytes depend only on v mod 65536: out-of-range values wrap silently |
| Commands.SlotExampleZero | cli/index.js:41-46 | updateSlot(s, 0, 0) sends [s, 0, 0, 0, 0] |
| Commands.SlotExampleMixed | cli/index.js:41-46 | updateSlot(s, 0x1234, 0xABCD) sends [s, 0x34, 0x12, 0xCD, 0xAB] |
| Commands.SlotExampleWrapped | cli/index.js:41-46 | updateSlot(s, -1, 0x10000) sends [s, 0xFF, 0xFF, 0, 0] |
| Protocol.Valid | cli/index.js:49-65 | the invariant "an outcome awaits a frame iff its observer is registered"; with no observer registered nothing is pending |
| Protocol.Send | cli/index.js:49-65 | sendTag adds one outcome and keeps earlier ones and the decoder input; the new outcome awaits a frame iff the write succeeded; the invariant is kept |
| Protocol.Deliver | cli/index.js:56-62 | a frame emitted by the decoder leaves nothing pending and no observer registered, and touches neither the decoder input nor the log |
| Protocol.Feed | cli/index.js:15 | inbound bytes extend the decoder input and change no observer, outcome or log entry |
| Protocol.ClearDecoder | cli/index.js:25 | `decoder.reset()` empties the decoder input, is logged, and changes no observer or outcome |
| Protocol.Issue | cli/index.js:24-46 | every command method adds one outcome, awaiting iff its write succeeded, and its last logged action is writing the encoding of that command's (tag, args) |
| Protocol.Answer | cli/index.js:57-61 | a frame resolves its command iff its tag is Done; any other tag rejects it with that frame |
| Protocol.SendSpec | cli/index.js:49-65 | a send adds one outcome, keeps earlier ones and the decoder, logs the packet, and registers an observer iff the write succeeded; a failed write rejects with its error |
| Protocol.IssueSpec | cli/index.js:24-46 | the same for every command method, with the exact log: the packet of the command's own (tag, args), preceded by the decoder clear for reset only; only reset empties the decoder |
| Protocol.DeliverSpec | cli/index.js:56-62 | a frame settles every awaiting outcome with its answer, leaves settled ones unchanged, and removes every observer |
| Protocol.UnsolicitedFrameIgnored | cli/index.js:56-62 | a frame arriving with no observer registered changes no state |
| Protocol.ApplyValid | cli/index.js:49-65 | every step keeps "awaiting iff observed" and never removes an outcome |
| Protocol.RunValid | cli/index.js:49-65 | the same for any sequence of steps |
| Protocol.SettledIsFinal | cli/index.js:56 | once settled, an outcome is unchanged by any later calls, bytes or frames |
| Protocol.FeedsKeep | cli/index.js:15 | any number of chunks of inbound bytes leave observers, outcomes and log unchanged |
| Protocol.Exchange | cli/index.js:49-62 | a command, inbound bytes, then a frame: the command gets its write error or else the frame's answer, every other awaiting command gets the same answer, settled ones are kept, nothing is left pending |
| Protocol.FirstFrameDecides | cli/index.js:56-61 | after a successful write, the first frame emitted decides the outcome, whatever bytes arrive before it and whatever steps follow |
| Protocol.WriteFailureIsFinal | cli/index.js:52-55 | a failed write registers no observer and its rejection with the write error is final |
| Protocol.InboundIgnored | cli/index.js:15-17 | bytes and frames arriving while nothing is pending change no outcome |
| Protocol.SerialisedRounds | cli/index.js:49-65 | a caller that awaits each command gets, for the i-th command, its write error or else the outcome of its own answer, with inbound bytes before each answer; extra bytes and frames between commands are never attributed |
| Protocol.OverlappingCommandsShareAnswer | cli/index.js:56-62 | two commands written before any answer are both settled by the same next frame |
| Protocol.ResetClearsFirst | cli/index.js:24-26 | reset logs the decoder clear and then the Reset packet, leaves the decoder empty, and otherwise acts as sending tag 0 with no args |
| Protocol.StaleBytesDiscarded | cli/index.js:25 | bytes fed to the decoder before reset are forgotten; its input is then only the bytes received since |
| Protocol.DecoderOnlyReset | cli/index.js:25 | the decoder input changes only through inbound bytes and reset |
| Driver.Alpheus.constructor | cli/index.js:12-18 | a new driver has no outcomes, no observers, an empty decoder and an empty log |
| Driver.Alpheus.SendTag | cli/index.js:49-65 | the new state is `Send` of the old one, and the returned id names the new outcome |
| Driver.Alpheus.Reset | cli/index.js:24-27 | clears the decoder, then sends; the new state is `Issue(Reset)` of the old one |
| Driver.Alpheus.Start | cli/index.js:29-31 | the new state is `Issue(Start)` of the old one |
| Driver.Alpheus.UpdateClock | cli/index.js:33-35 | the new state is `Issue(UpdateClock)` of the old one |
| Driver.Alpheus.UpdateTrigger | cli/index.js:37-39 | the new state is `Issue(UpdateTrigger)` of the old one |
| Driver.Alpheus.UpdateSlot | cli/index.js:41-47 | computes the four bytes and sends them; the new state is `Issue(UpdateSlot)` of the old one |
| Driver.Alpheus.Receive | cli/index.js:15 | inbound bytes are appended to the decoder input |
| Driver.Alpheus.DeliverFrame | cli/index.js:56-62 | the listener loop leaves the state equal to `Deliver` of the old one |

## Left out

- Opening and configuring the serial port (baud rate, `autoOpen`, `endOnClose`) and `pipe` (cli/index.js:14-15): device I/O.
- `disconnect` / `port.close()` (cli/index.js:20-22): device I/O. No lifecycle after close is modelled.
- The MTLV encoder and decoder internals (cli/index.js:2, 15, 50): an external library not part of this model. The encoder is an uninterpreted function parameter. The decoder is modelled by its input since the last reset, which inbound bytes extend and reset empties. How it cuts frames out of that input, and which bytes it still holds after emitting a frame, is not modelled; a frame's emission is an input step.
- The user `packetCb` wiring on `data` and `error` (cli/index.js:16-17): event plumbing with no effect on outcomes. Link-level errors are therefore not a step of the model.
- Promise and callback asynchrony: modelled as explicit sequential steps (write result, then frame arrival). The `once` listener is registered inside the write callback (cli/index.js:52-56), so a frame emitted after the packet leaves but before that callback runs reaches no observer, and the command then waits for the next frame. The model covers this as an `Arrive` step placed before the `Call`, which `UnsolicitedFrameIgnored` shows has no effect; the write and its callback are one step. A Promise is represented by its settled state; the values passed to the caller's `then`/`catch` are the outcome's contents.
- Timeouts: the code has none, so an outcome with no frame stays `Awaiting`.
- JavaScript Numbers that are not integers, or beyond 2^53: command arguments are modelled as mathematical integers. ToInt32 of a fractional, infinite or NaN argument (truncation, or 0) is not modelled.
