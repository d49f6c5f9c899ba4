# PCMU player receive path, in Dafny

This project models the browser side of the RTP/PCMU relay demo (`examples/player_pipe/player.js`).
The player receives binary WebSocket frames. Each frame is an RTP packet: a 12-byte fixed header
(section 5.1 of RFC 3550) followed by a PCMU payload of one μ-law byte per sample (section 4.5.14 of
RFC 3551). The player works in four steps:

1. It drops a frame while audio output has not been enabled, or when the frame is no longer than
   the header.
2. It decodes every payload byte with `ulawToLinear`, the μ-law expansion of ITU-T G.711.
3. It appends the decoded samples to a buffer.
4. Once the buffer holds at least 800 samples, it plays the whole buffer as one clip and empties it.

Two modules:

- `Ulaw` (`ulaw.dfy`) is the decoder. `UlawToLinear` follows the JavaScript step by step. `~b` is a
  32-bit complement (`bv32`), and the masks and the `>> 4` are `bv32` operations. The two `<<`
  shifts are multiplications by powers of two over `nat`; `ShiftFitsInt32` shows their result stays
  below 2^31, so the 32-bit shifts of the JavaScript cannot wrap. `Magnitude` is an arithmetic reading
  of the same expansion over the 7-bit code `16 * exponent + mantissa`, and `UlawToLinearIsExpansion`
  proves the two agree on all 256 bytes. Bounds, ordering and injectivity are proved from
  `Magnitude`; the zero codes, the extremes, the table entries and sign symmetry follow directly from
  the bit-level definition.
- `Player` (`player.dfy`) is the `onmessage` handler. `OnMessage` is a pure step from
  (audio enabled, buffer, frame) to (new buffer, clip played or none). `AppendDecoded` is the decode
  loop. `Run` applies the handler to a sequence of messages. `RunPreservesOrder` shows that the
  clips played, followed by the remaining buffer, are exactly the decoded payloads of the accepted
  frames, in arrival order.

Samples are the decoder's integers. The click handler that creates the `AudioContext` is modelled
as the boolean `audioOn` carried by each message.

Two consequences of the code worth stating:

- Flipping bit 7 only negates the decoded sample, for every byte (`Ulaw.SignSymmetry`).
- A 1612-byte frame reaching an empty buffer plays as one 1600-sample clip, not two clips of 800
  (`Player.LongFrameIsOneClip`): the whole buffer is played once it reaches 800.

## Model

| member | source | states |
|---|---|---|
| Ulaw.UlawToLinear | examples/player_pipe/player.js:5-12 | every byte decodes into -32124..32124; bytes below 0x80 give values ≤ 0, bytes from 0x80 up give values ≥ 0 |
| Ulaw.ComplementFields | examples/player_pipe/player.js:6-9 | on the 32-bit complement of a byte, bit 7 is set exactly for bytes below 0x80; the exponent and mantissa fields are the high 3 and low 4 bits of the 7-bit code 127 - (b mod 128) |
| Ulaw.UlawToLinearIsExpansion | examples/player_pipe/player.js:5-12 | the bit-level decoder equals the arithmetic μ-law expansion: minus the code's magnitude for bytes below 0x80, plus it otherwise |
| Ulaw.ShiftFitsInt32 | examples/player_pipe/player.js:10 | `((m << 1) + 33) << (e + 2)` is at most 32256 for every 4-bit mantissa and 3-bit exponent, so the 32-bit shifts never wrap |
| Ulaw.MagnitudeStep | examples/player_pipe/player.js:8-11 | the next code up always has a larger magnitude, including across a segment boundary (segment e ends at 252 << e, segment e + 1 starts at 264 << e) |
| Ulaw.MagnitudeMonotone | examples/player_pipe/player.js:8-11 | magnitude strictly increases with the 7-bit code |
| Ulaw.MagnitudeBounds | examples/player_pipe/player.js:10-11 | magnitudes lie in 0..32124, and only code 0 has magnitude 0 |
| Ulaw.ZeroCodes | examples/player_pipe/player.js:5-12 | both zero codes 0xFF and 0x7F decode to 0 |
| Ulaw.ExtremeCodes | examples/player_pipe/player.js:5-12 | 0x00 decodes to -32124 and 0x80 to 32124 |
| Ulaw.TableEntries | examples/player_pipe/player.js:5-12 | 0x01, 0x7E, 0x70 and 0xF0 decode to -31100, -8, -120 and 120, as in the standard μ-law expansion table |
| Ulaw.SignSymmetry | examples/player_pipe/player.js:6-11 | for every byte b, decoding b ^ 0x80 gives exactly the negated value |
| Ulaw.DecodeOrder | examples/player_pipe/player.js:7-11 | on 0x00..0x7F the decoded value strictly rises with the byte; on 0x80..0xFF it strictly falls |
| Ulaw.DecodeInjective | examples/player_pipe/player.js:5-12 | two different bytes decode to the same sample only if they are the zero codes 0x7F and 0xFF |
| Player.Payload | examples/player_pipe/player.js:27-29 | a frame longer than the header has a non-empty payload of length n - 12, holding the frame's bytes from offset 12 on |
| Player.AppendDecoded | examples/player_pipe/player.js:31-33 | the decode loop leaves the existing samples untouched and appends exactly one decoded sample per payload byte, in payload order |
| Player.StepConserves | examples/player_pipe/player.js:24-44 | for one message, the clip played (if any) followed by the new buffer is the old buffer followed by the message's decoded payload, or by nothing when the message is dropped |
| Player.OnMessage | examples/player_pipe/player.js:24-44 | with audio off or a frame ≤ 12 bytes, the buffer is unchanged and nothing plays; otherwise the played clip followed by the new buffer is the old buffer followed by the decoded payload, and a clip plays exactly when that total reaches 800; a played clip has ≥ 800 samples and leaves the buffer empty; a buffer below 800 stays below 800 |
| Player.Run | examples/player_pipe/player.js:35-42 | over any message sequence, a buffer started below 800 ends below 800, every clip played has at least 800 samples, and at most one clip plays per message |
| Player.RunPreservesOrder | examples/player_pipe/player.js:29-42 | the clips played, then the remaining buffer, equal the starting buffer followed by the decoded payloads of all accepted frames in arrival order: nothing lost, duplicated or reordered |
| Player.LongFrameIsOneClip | examples/player_pipe/player.js:35-42 | a 1612-byte frame of 0xFF reaching an empty buffer plays one clip of 1600 zero samples, not two clips of 800 |

## Left out

- `examples/player_pipe/server.js` (the HTTP asset server and the WebSocket fan-out) is not part of this model. It only forwards bytes between sockets through library calls.
- The WebSocket connection and its `binaryType` setting are left out. The model starts from the frame's bytes.
- The click handler that creates the `AudioContext` is left out. Whether audio is enabled is an input of each message.
- The Web Audio calls that build and start a buffer source (`createBuffer`, `getChannelData().set`, `createBufferSource`, `connect`, `start`) are left out. Playing a clip is modelled as emitting the buffer's contents.
- The division of each sample by 32768 is left out, because it is floating point. The buffer holds the decoder's integer samples.
- Ulaw.UlawToLinear: JavaScript returns negative zero for 0x7F (`-1 * 0`). The integer model returns 0, which is the same sample once played.
- The RTP header fields are never interpreted by the player, so they are not modelled. The header is only skipped.
