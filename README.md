# collectd binary protocol decoder, modelled in Dafny

This project models the decoding core of `collectd-node` (file `lib/collectd.js`).
That is the Node.js reader for the binary network protocol of the collectd
statistics daemon. A datagram is a run of *parts*. Each part has a 2-byte
big-endian type, a 2-byte big-endian total length (the 4-byte header included)
and a payload. The reader does two things:

- it decodes each part with the decoder registered for its type: text for
  HOST, PLUGIN, PLUGIN_INSTANCE, TYPE, TYPE_INSTANCE and MESSAGE; a signed 64-bit
  integer for TIME, INTERVAL and SEVERITY; a value list for VALUES;
- it folds the decoded parts into a value-list object `vl` and a notification
  object `nt`. Each VALUES part hands `vl` to the user's handler, and each
  MESSAGE part hands `nt` to it.

The modules follow the file's layers:

- `Results` (`results.dfy`): `Option`, `Result`, and the prefixing of a result's
  list, which the decoding loops use to accumulate their output.
- `Bytes` (`bytes.dfy`):
  - octets;
  - Node's `Buffer.slice`, through which `getBytes` reads: clamped indices, a
    negative index counting back from the end, and an empty result when the end
    comes before the start;
  - big-endian integers and 64-bit two's complement;
  - the behaviour assumed of the binary parser's `toShort` and `decodeInt`;
  - the `ascii` text decoding.
- `Codec` (`codec.dfy`):
  - the part-type and datasource-kind constants;
  - the three decoders and the `_decoders` table;
  - the value-list loop, as a method proved against a function.
- `Packet` (`packet.dfy`):
  - the walker `decode_network_packet`, as a loop method proved against a
    recursive function;
  - how the parts of a decoded datagram tile it; what each failure means;
  - encode/decode round trips for single-part datagrams;
  - the loop pass as written.

  The walker is written over the decoder call it makes. Its structural facts
  therefore hold for any decoder, and the datagram's walker (`PacketFields`)
  plugs in the Codec decoders.
- `Aggregator` (`aggregator.dfy`): `objectize` as a loop method proved against
  a fold, the per-key semantics of the two accumulators, and `recv`.

As in the original, every decoder receives the whole rest of the datagram after
the part's header, together with the declared payload length. Only the text
decoder uses the length. The number and value-list decoders read from the start
of the rest and can read past their own part.

The header comment of `lib/collectd.js` (lines 14-16) says the callback receives
an object with the fields received and is called once per received packet. The
code does otherwise. `objectize` calls the handler once per VALUES part and once
per MESSAGE part, and never for any other part (lines 218-223). `recv` decodes
the whole datagram before `objectize` runs, so a datagram that fails to decode
produces no handler call at all (lines 229-233). The model follows the code
(`Aggregator.EmittedCount`, `Aggregator.Recv`).

## Model

| member | source | states |
|---|---|---|
| Bytes.GetBytes | lib/collectd.js:60-62 | `getBytes(from, cnt)` is `slice(from, from + cnt)`: for non-negative arguments, the bytes from `from` up to `from + cnt`, both clamped to the buffer; exactly `cnt` bytes iff the buffer holds them |
| Bytes.SliceBound | lib/collectd.js:60-62 | a slice index inside the buffer is kept; every index lands inside the buffer |
| Bytes.ToShort | lib/collectd.js:65 | the parser's 16-bit read succeeds iff it is given at least 2 bytes, and is then `b0 * 256 + b1`, below 65536 |
| Bytes.DecodeInt64 | lib/collectd.js:77-90 | the parser's 64-bit read succeeds iff it is given at least 8 bytes; unsigned, it is the big-endian value of the first 8; signed, it is that value or that value less 2^64, within the signed 64-bit range |
| Bytes.ToInt64 | lib/collectd.js:108-110 | the two's-complement reading of a 64-bit pattern lies in the signed range and differs from the pattern by 0 or 2^64 |
| Bytes.FromInt64 | lib/collectd.js:108-110 | every signed 64-bit value has a 64-bit pattern whose two's-complement reading is that value |
| Bytes.BeUintOfBeBytes | lib/collectd.js:77-90 | reading back the `n` big-endian bytes of a number below 256^n gives the number |
| Bytes.BeBytesOfBeUint | lib/collectd.js:77-90 | writing out the big-endian value of a byte string gives the byte string |
| Bytes.AsciiText | lib/collectd.js:116 | `toString("ascii")` gives one character per byte, the byte with its high bit cleared |
| Codec.DecodeSample | lib/collectd.js:72-94 | a slot decodes iff its kind tag is Counter, Gauge, Derive or Absolute and 8 bytes are left; any other tag is the "unknown ds type" error |
| Codec.SampleValue | lib/collectd.js:74-91 | a decoded sample keeps its kind tag; Counter and Absolute are the unsigned big-endian value of the slot, Derive its signed value, Gauge the slot's 8 bytes |
| Codec.DecodeSlots | lib/collectd.js:69-96 | the loop body as a recursion over the kind tags from `k` on, slot `k` read at 2 + N + 8k, the first failing slot deciding the error: every sample it yields has a known kind tag, and an unknown-kind error carries a tag above Absolute |
| Codec.ValueList | lib/collectd.js:63-98 | the definition of `_decode_network_values`: the count, the kind tags after it and one sample per tag; a rest under 2 bytes is the missing-bytes error, every sample has a known kind tag, and an unknown-kind error carries a tag above Absolute |
| Codec.DecodeValueList | lib/collectd.js:63-98 | the count/kind-tag/slot loop, which advances the slot offset by 8 and stops at the first failing slot, returns exactly the value list `ValueList` defines |
| Codec.ValueListCount | lib/collectd.js:65-69 | a decoded value list has exactly N samples, N the leading count, except that a rest of exactly 2 bytes gives an empty list whatever N says |
| Codec.ValueListSampleAt | lib/collectd.js:66-91 | sample `i` has the kind tag at offset 2 + i and is decoded from the 8 bytes at 2 + N + 8i, which lie inside the datagram |
| Codec.ValueListSamples | lib/collectd.js:63-98 | a decoded value list has one sample per kind tag, in tag order, each from its own slot |
| Codec.ValueListComplete | lib/collectd.js:63-98 | conversely, a count N followed by N known kind tags and N full slots always decodes, to N samples |
| Codec.UnknownKindFailsValueList | lib/collectd.js:92-93 | one unknown kind tag among the first N fails the whole value list |
| Codec.KindReadings | lib/collectd.js:74-91 | an all-ones slot reads as -1 for Derive and as 2^64 - 1 for Counter and Absolute; the slot 0x..01 reads as 1 |
| Codec.DecodeNetworkString | lib/collectd.js:113-119 | corrected text decoder: the payload less its final NUL, as ascii text; the empty text for an empty payload |
| Codec.DecodeNetworkStringAsWritten | lib/collectd.js:113-119 | the decoder as written: for an empty payload it returns all of the rest but its last byte; for a non-empty payload it agrees with the corrected one |
| Codec.EmptyStringPayloadReadsAhead | lib/collectd.js:116 | on a 4-byte MESSAGE part followed by a HOST header, the decoder as written returns the HOST header's bytes as text, and the corrected one returns "" |
| Codec.DecodeNetworkNumber | lib/collectd.js:106-112 | a number part decodes iff at least 8 bytes follow its header, to the signed 64-bit big-endian value of those 8 bytes, under its own part type |
| Codec.DecodeNetworkValues | lib/collectd.js:99-105 | a VALUES part decodes exactly when its value list does, to that list under its own part type, and fails with the list's error otherwise |
| Codec.Decoders | lib/collectd.js:120-130 | the table gives the text decoder exactly to the six text types, the number decoder exactly to TIME, INTERVAL and SEVERITY, the value-list decoder exactly to VALUES, and nothing to any other type |
| Codec.ApplyDecoder | lib/collectd.js:150 | the call `_decoders[ptype](ptype, plen, rest)` with the corrected text decoder plugged in (the second deviation lives here): the text decoder never fails, a decoded part keeps its part type, and it is text exactly for the text decoder and a number exactly for the number decoder |
| Codec.ApplyDecoderAsWritten | lib/collectd.js:150 | the same call with the text decoder as written and a payload length that may be negative: the number and value-list decoders ignore the length, and for a non-empty payload within the rest the call agrees with the corrected one |
| Codec.DecodeWith | lib/collectd.js:150 | calling the registered decoder, with the value-list loop for VALUES, gives the decoder function's result |
| Packet.PartAt | lib/collectd.js:142-150 | a part that decodes has a full header and a declared length between 4 and the bytes left; a part that fails names its own offset |
| Packet.DecodePart | lib/collectd.js:142-150 | one pass of the loop body: the header reads, the length check, the lookup and the decoder call give the part `PartAt` defines, and the declared length to advance by |
| Packet.Walk | lib/collectd.js:141-151 | the walk as a recursive function over the decoder call it makes: from `off`, the part there, then the walk from where its declared length ends; the first failing part decides the error; the length-below-4 deviation lives in the part it reads |
| Packet.WalkBounds | lib/collectd.js:141-151 | a successful walk yields at most one part per 4 bytes and at least one part unless it starts at the end; a failed walk names a part between where it started and the end |
| Packet.PacketFields | lib/collectd.js:131-153 | what `decode_network_packet` returns, both deviations included: the too-short error exactly for datagrams under 4 bytes; otherwise at least one part and at most one per 4 bytes, or an error naming a part inside the datagram |
| Packet.DecodeNetworkPacket | lib/collectd.js:131-153 | the walker loop returns exactly `PacketFields`: the rejection of datagrams under 4 bytes, then the parts in order, or the first part's error |
| Packet.PacketTiling | lib/collectd.js:141-151 | in a decoded datagram, each part comes from one header; the first header is at 0, each next header is where the previous declared length ends, the last part ends at the end of the datagram, and the declared lengths sum to its length |
| Packet.TiledPacketDecodes | lib/collectd.js:141-151 | conversely, a datagram tiled by decodable parts decodes to exactly those parts |
| Packet.ChainUnique | lib/collectd.js:141-143 | the headers alone fix where every part begins: two tilings of a datagram are the same |
| Packet.PacketErrorHasCause | lib/collectd.js:137-150 | every failure is reached over decodable parts and shows its cause at the offset it names: a datagram under 4 bytes, a truncated header, a declared length past the end, an unregistered type, a declared length under 4, or a payload the decoder rejects |
| Packet.ReachedHeaderDecides | lib/collectd.js:141-150 | once the walk reaches a header over decodable parts, that header alone decides the error: truncated header, length past the end, unknown type, length under 4, or, for a well-formed header, the error of the payload its decoder rejects |
| Packet.ReachedUnknownKindFailsPacket | lib/collectd.js:92-93 | a reached VALUES part with an unknown kind tag among its first N fails the whole datagram, at that part, with the value list's error |
| Packet.StringPartText | lib/collectd.js:113-119 | a decoded text part holds the ascii text of its payload less the final byte, or "" for an empty payload |
| Packet.NumberPartValue | lib/collectd.js:106-112 | a decoded number part holds the signed value of the 8 bytes after its header |
| Packet.StringPartRoundTrip | lib/collectd.js:113-119 | a datagram holding one NUL-terminated 7-bit text part decodes to that text |
| Packet.NumberSlotRoundTrip | lib/collectd.js:106-112 | the two's-complement bytes of any signed 64-bit value decode back to that value |
| Packet.NumberPartRoundTrip | lib/collectd.js:106-112 | a datagram holding one number part decodes to that number, for every signed 64-bit value |
| Packet.SinglePartPacket | lib/collectd.js:141-151 | a datagram that is exactly one decodable part decodes to that one part |
| Packet.AsWrittenPass | lib/collectd.js:141-151 | one pass of the loop exactly as written, from loop state (`offset`, `plen`): none once `offset + plen` reaches the end; otherwise the next state has its header at `offset + plen`, the declared length read there, within the datagram, and a registered part type |
| Packet.ZeroLengthPartSpins | lib/collectd.js:141-150 | as written, a decodable part declaring length 0 is a fixed point of the loop pass, so the loop does not end |
| Packet.ZeroLengthTimePart | lib/collectd.js:141-150 | for the datagram 00 01 00 00 plus 8 zero bytes, the loop as written re-enters its first state, while the corrected walker rejects the part as too short |
| Aggregator.KeyFor | lib/collectd.js:200-223 | a key is set only by registered part types; `data` is set on `vl` exactly by VALUES, and `message` on `nt` exactly by MESSAGE |
| Aggregator.KeySides | lib/collectd.js:201-224 | TIME, HOST, PLUGIN, TYPE, TYPE_INSTANCE and PLUGIN_INSTANCE set the same key on `vl` and `nt`, named `time`, `host`, `plugin`, `type`, `typeinstance` and `plugininstance`; INTERVAL sets `interval` on `vl` only, SEVERITY `severity` on `nt` only; VALUES touches no key of `nt` and MESSAGE none of `vl`; a type with no case sets nothing |
| Aggregator.KeyForInjective | lib/collectd.js:201-224 | no two part types set the same key on the same accumulator |
| Aggregator.StepUnlisted | lib/collectd.js:201-224 | a part of a type without a case leaves both accumulators and the calls as they were; a part other than VALUES and MESSAGE makes no call |
| Aggregator.Step | lib/collectd.js:200-223 | one case of the switch: the call list only grows, by one call for VALUES and MESSAGE and by none for any other part |
| Aggregator.Aggregate | lib/collectd.js:192-228 | the fold of the switch over the parts from two empty objects, the reference for `objectize`: never more calls than parts |
| Aggregator.Objectize | lib/collectd.js:192-228 | the loop with its switch makes exactly the handler calls of the fold `Aggregate`, in order |
| Aggregator.EmittedCount | lib/collectd.js:217-222 | the handler is called once per VALUES or MESSAGE part and never for any other part |
| Aggregator.EmittedPrefix | lib/collectd.js:198-226 | calls, once made, are never altered or withdrawn: the calls after the first i parts begin the calls after all of them |
| Aggregator.AccumulatorHasKey | lib/collectd.js:200-223 | an accumulator holds a key iff some part sets that key on it |
| Aggregator.AccumulatorHoldsLatest | lib/collectd.js:200-223 | the last part that sets a key decides its value |
| Aggregator.PartEmits | lib/collectd.js:217-222 | the call for the VALUES or MESSAGE part at i is call number "emitting parts before i", and carries the accumulator as it stands after that part, with `data`, or `message`, equal to that part's value |
| Aggregator.AccumulatorKeys | lib/collectd.js:200-223 | `vl` holds only value-list keys and `nt` only notification keys; every metric carries `data` and every notice `message` |
| Aggregator.TwoValuesShareContext | lib/collectd.js:206-222 | two VALUES parts after one HOST part give two metrics with that host, each with its own samples |
| Aggregator.Recv | lib/collectd.js:229-233 | without a handler there are no calls; otherwise a malformed datagram gives its error and no calls, and a well-formed one gives the calls of `objectize` on its parts |

## Left out

- The `Reader` constructor, the UDP socket and the multicast setup (lib/collectd.js:155-191) are I/O and are not modelled. `rinfo` is unused by the core and is dropped.
- The `Buffer.prototype.charCodeAt` shim (lib/collectd.js:55-59) is how the binary parser reads the Buffers the decoders hand it; it reads through `this.toString()`. The model assumes the parser sees the raw octets and does not model that string conversion.
- The binary parser's source is not part of this model, and its behaviour is assumed, not known. `toShort` is assumed to be an unsigned 16-bit big-endian read of the first 2 bytes it is given, and `decodeInt(data, 64, signed)` a big-endian read of the first 8 bytes. Both are assumed to fail (here, an error value) when given too few bytes. `litparser.toDouble` (line 85) is likewise assumed to fail on a gauge slot shorter than 8 bytes, so `Codec.DecodeSample` fails every known kind, the gauge included, when fewer than 8 bytes are left. The choice of bytes matters most for the number decoder, which is handed the whole rest of the datagram (line 110): a parser that reads the trailing bytes of a longer input, or that reads `toShort` as signed, would give other values than the model does.
- Bytes.DecodeInt64: the parser returns a JavaScript double, which rounds integers above 2^53. The model keeps the exact integer.
- Codec.SampleValue: a gauge is kept as its 8 raw bytes. The little-endian `toDouble` conversion is floating point and is not modelled.
- Bytes.AsciiText: models `ascii` decoding as clearing each byte's high bit, as the Node releases of the library's era did. Newer Node releases decode `ascii` as latin1.
- Bytes.GetBytes: models current `Buffer.slice` semantics (clamping, negative indices). Very old Node releases threw on out-of-range slices instead.
- Thrown exceptions are modelled as error values. The process crash that an exception escaping the socket's message handler would cause is not modelled.
- Aggregator.Objectize: each handler call receives a snapshot of the accumulator. In the original, the handler receives the same `vl` or `nt` object every time, and later parts of the datagram keep mutating it. Aliasing between the records is not modelled. The list `objectize` returns (the values of the switch cases) and the choice between the `cb` argument and `this.handler` are not modelled either.
- Part types outside the table, such as the high-resolution time parts of newer collectd versions, are not special-cased. Like any unregistered type, they end decoding with `UnknownType`.
- Packet.PacketFields: deviates from the code in the two places the Findings name, and `Aggregator.Recv` and `Packet.StringPartText` inherit both deviations.
  - Declared lengths below the header size. A length of 0 leaves the as-written loop at the same header for ever. Lengths 1 to 3 pass a negative payload length to the decoder and move the next header read forward by only 1 to 3 bytes, into the part's own header. The model rejects all of them as `FieldTooShort` and does not follow the as-written walk.
  - The corrected text decoder. A text part of declared length 4 decodes to the empty text. As written (line 116), it decodes to the rest of the datagram less its last byte: in the datagram 00 00 00 04 00 00 00 05 41, the first part is "\0\0\0\x05" as written and "" in the model.

## Findings

| source | as written | input that shows it | evidently intended | confidence | as-written member | corrected member |
|---|---|---|---|---|---|---|
| lib/collectd.js:141-150 | `while ((offset += plen) < length)` advances by the declared length with no check that it covers the 4-byte header | the datagram 00 01 00 00 followed by 8 zero bytes: a TIME part that declares length 0 leaves the loop state unchanged, so the loop never ends | reject a part whose declared length is below 4 | not executed | Packet.ZeroLengthTimePart | Packet.ReachedHeaderDecides |
| lib/collectd.js:116 | `buf.getBytes(0, plen - 1)` for an empty payload (`plen` 0) is `slice(0, -1)`: all of the rest but its last byte | a MESSAGE part of declared length 4 followed by a HOST part: the rest 00 00 00 05 41 decodes as the text "\0\0\0\x05" | the empty text | not executed | Codec.EmptyStringPayloadReadsAhead | Codec.DecodeNetworkString |
