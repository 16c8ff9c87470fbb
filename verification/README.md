# Steg: a verified model of a two-strategy steganography tool

`Steg.py` hides a payload inside a carrier file and gets it back. A payload is
always stored as a *frame*: the payload bytes followed by the six-byte
terminator `00 FF 00 00 FF 00`. Two strategies write and read that frame.

* **Bit strategy.** Each bit of the frame, most significant bit first, replaces
  the least significant bit of one carrier byte, from `offset` on. The upper
  seven bits of every carrier byte are kept. The decoder rebuilds one byte from
  each group of eight least significant bits.
* **Byte strategy.** Each byte of the frame replaces a whole carrier byte at
  `offset`, `offset + interval`, `offset + 2 * interval`, and so on. The decoder
  reads the bytes at those positions.

Both decoders stop as soon as the bytes read so far end with the terminator,
and drop it. If no terminator is found, they return everything they read.
Before either strategy runs, a carrier whose file name ends in `.jpg`, `.jpeg`
or `.png` (case-sensitive) gets its offset raised to 1024 if it was lower.

The project has these modules:

* `Outcomes` (`outcomes.dfy`): the failure kinds. An encoder that runs out of
  carrier returns `Fail(CapacityExceeded)` where the program prints an error
  and exits. A bit decode that reads past the end returns
  `Err(IndexOutOfRange)` where the program raises an index error.
* `Sentinel` (`sentinel.dfy`): the terminator, the frame, and the stopping rule
  shared by both decoders. `Unframe` is the specification of that rule.
* `BitStrategy` (`bit_strategy.dfy`): `store_bit` and `retrieve_bit`. They are
  methods over an `array<bv8>` carrier, proved against the specification
  functions `LsbOverlay` (what the encoder leaves in the carrier) and
  `DecodeBits` (what the decoder returns).
* `ByteStrategy` (`byte_strategy.dfy`): `store_byte` and `retrieve_byte`,
  proved against `Scatter` and `Strided`.
* `OffsetGuard` (`offset_guard.dfy`): the header guard for image carriers.
* `Scenarios` (`scenarios.dfy`): two worked examples on small all-zero carriers.

Each source function is modelled with its loops kept. Where the source repeats
the same loop twice (once for the payload, once for the terminator, with one
shared cursor), the loop is a helper method that the store method calls twice.
The bit encoder's inner loop (one byte) and the bit decoder's inner loop (one
group of eight) are helper methods as well.

**Round-trip condition.** "The payload does not contain the terminator" is not
enough for a round trip. The terminator overlaps itself on `00 FF 00`. So the
payload `00 FF 00` plus the terminator already ends with a terminator after
six bytes, and the whole payload is lost (`Sentinel.OverlapLosesPayload`). The
round-trip lemmas therefore require that the payload followed by the first
five terminator bytes holds no terminator. That condition is both sufficient
and necessary (`Sentinel.UnframeFramedIff`): when it fails, the decoder stops
inside the frame and returns fewer bytes than the payload.

**Byte capacity.** `store_byte` only checks the positions it actually writes.
It therefore fails exactly when the last slot of the frame,
`offset + interval * (len(hidden) + 5)`, lies at or past the end of the carrier.
Requiring `interval * (len(hidden) + 6)` positions would be stricter than what
the code checks. The model follows the code.

## Model

| member | source | states |
|---|---|---|
| Sentinel.SENTINEL | Steg.py:4 | The terminator is the six bytes `00 FF 00 00 FF 00`. |
| Sentinel.EndsWithSentinel | Steg.py:85 | The stopping test of both decoders: the bytes read so far are at least six long and their last six are the terminator. A shorter accumulator never matches, as a shorter slice never equals the six-byte terminator. |
| Sentinel.Scan | Steg.py:74-87 | The decoders' stopping rule from position `k`: look at the prefixes one unit longer each time, stop at the first one that ends with the terminator and drop it, or return all units if none does. |
| Sentinel.Unframe | Steg.py:83-101 | What either decoder returns from the stream of units it reads: the stopping rule applied from the start. |
| Sentinel.Frame | Steg.py:4 | The frame is the payload followed by the six terminator bytes `00 FF 00 00 FF 00`, and its length is the payload's plus six. |
| Sentinel.ScanStopsAtFirst | Steg.py:83-87 | Scanning from position `k` stops at the first later prefix that ends with the terminator and returns it without the terminator. |
| Sentinel.ScanRunsOut | Steg.py:74-87 | If no prefix past `k` ends with the terminator, scanning returns all units. |
| Sentinel.ScanClean | Steg.py:83-87 | The scan result is a prefix of the units and never contains the terminator. |
| Sentinel.NoSentinelExtend | Steg.py:83-85 | Appending a unit that does not complete a terminator keeps a terminator-free accumulator terminator-free. |
| Sentinel.UnframeFirst | Steg.py:83-87 | When the first prefix ending with the terminator has length `n`, the decoder returns the first `n - 6` units. |
| Sentinel.UnframeMatched | Steg.py:85-87 | When the accumulated bytes end with the terminator for the first time, the decoder returns them minus the terminator, whatever would have followed. |
| Sentinel.UnframeWhole | Steg.py:74-90 | Units holding no terminator are returned whole. |
| Sentinel.UnframeClean | Steg.py:83-87 | The decoded payload is a prefix of the units, never contains the terminator, and equals all units exactly when they hold no terminator. |
| Sentinel.UnframeFramed | Steg.py:37-46 | A frame followed by anything decodes to its payload if the payload plus the first five terminator bytes holds no terminator. |
| Sentinel.ScanBefore | Steg.py:83-87 | The scan stops no later than any prefix that ends with the terminator. |
| Sentinel.UnframeFramedOnlyIf | Steg.py:83-87 | If the payload plus the first five terminator bytes contains the terminator, a frame decodes to fewer bytes than its payload. |
| Sentinel.UnframeFramedIff | Steg.py:37-46 | A frame followed by anything decodes to its payload exactly when the payload plus the first five terminator bytes holds no terminator. |
| Sentinel.OverlapLosesPayload | Steg.py:85-87 | The payload `00 FF 00` holds no terminator, yet its frame decodes to the empty payload. |
| BitStrategy.Shifted | Steg.py:33 | The encoder's working byte after `k` shifts left, truncated to eight bits by `& 0xFF`. |
| BitStrategy.BitAt | Steg.py:31-33 | Bit `j` from the top of a byte is 0 or 1. |
| BitStrategy.BitAtIsBit | Steg.py:31-33 | The top bit of the byte shifted left `j` times within eight bits is bit `7 - j` of the original byte. |
| BitStrategy.BitsOf | Steg.py:23-24 | Eight bits per payload byte. |
| BitStrategy.BitsOfAt | Steg.py:23-35 | Bit `8k + j` of the bit stream is bit `j` from the top of payload byte `k`. |
| BitStrategy.BitsOfConcat | Steg.py:23-46 | The bit stream of a concatenation is the concatenation of the bit streams. |
| BitStrategy.LsbOverlay | Steg.py:21-46 | The carrier keeps its length when bits are written into it. |
| BitStrategy.OverlayAt | Steg.py:29-31 | Every written position keeps its upper seven bits and takes the next bit as its least significant bit; every other position is unchanged. |
| BitStrategy.BitPlacement | Steg.py:23-35 | Position `offset + 8k + j` becomes its old upper seven bits joined with bit `j` from the top of payload byte `k`. |
| BitStrategy.OverlayStep | Steg.py:29-31 | Writing one more bit changes exactly one position, to its upper bits joined with that bit. |
| BitStrategy.OverlayBeyond | Steg.py:25-27 | Bits that would land past the end of the carrier change nothing. |
| BitStrategy.OverlayConcat | Steg.py:23-46 | Writing two bit streams one after the other equals writing their concatenation. |
| BitStrategy.EncodeStep | Steg.py:29-35 | One inner-loop step (clear the low bit, or in the top bit of the working byte, shift it) extends the written prefix of the bit stream by one bit. |
| BitStrategy.BitsInTwoParts | Steg.py:23-46 | Writing the payload's bits and then the terminator's from the next position equals writing the frame's bits. |
| BitStrategy.BitsPastEnd | Steg.py:25-27 | If the payload's bits already run past the carrier, the terminator's bits change nothing. |
| BitStrategy.EmbedByte | Steg.py:24-35 | Writes one byte's eight bits from `start`. It succeeds exactly when the eight positions fit. The carrier becomes its overlay with those bits, cut at the carrier's end. |
| BitStrategy.EmbedBits | Steg.py:23-35 | Writes every bit of the data from `start`. It succeeds exactly when the data is empty or its `8 * len` positions fit. The carrier becomes its overlay with the data's bits. |
| BitStrategy.StoreBit | Steg.py:21-46 | Fails with `CapacityExceeded` exactly when `offset + 8 * (len(hidden) + 6)` exceeds the carrier length. In every case the carrier becomes its overlay with the frame's bits, so a failed store leaves the in-range part written. |
| BitStrategy.Push | Steg.py:78-80 | One step of the decoder's accumulator: shifted left, with the least significant bit of the carrier byte or-ed in. |
| BitStrategy.Assemble | Steg.py:77-81 | The byte the decoder rebuilds from a group of carrier bytes, one push per byte, first to last. |
| BitStrategy.AssembleEight | Steg.py:77-81 | Eight shift-and-or steps over the low bits of eight carrier bytes, first to last, give the rebuilt byte. |
| BitStrategy.PackByte | Steg.py:77-81 | Shifting in the eight bits of `x`, most significant first, rebuilds `x`. |
| BitStrategy.AssembleBits | Steg.py:77-81 | Eight carrier bytes whose low bits are the bits of `x` rebuild `x`. |
| BitStrategy.AssembleFits | Steg.py:79-80 | A byte rebuilt from fewer than `n < 8` bits is below `2^n`. |
| BitStrategy.AccumulateBit | Steg.py:78-80 | One inner-loop step rebuilds one more bit, and before the eighth bit the accumulator stays below 0x80, so the shift never overflows 0..255. |
| BitStrategy.LsbBytes | Steg.py:74-81 | The complete groups of eight from `offset` cover at most the carrier and leave fewer than eight bytes over. |
| BitStrategy.LsbBytesAt | Steg.py:74-83 | Rebuilt byte `k` comes from carrier positions `offset + 8k` to `offset + 8k + 7`. |
| BitStrategy.ReadGroup | Steg.py:77-81 | Rebuilds one byte from eight carrier bytes from `start`. It reports an incomplete group exactly when the carrier ends inside it. |
| BitStrategy.GroupIncomplete | Steg.py:74-81 | If the carrier ends inside a group before any terminator, the decode is `IndexOutOfRange`. |
| BitStrategy.GroupMatched | Steg.py:83-87 | If the group just rebuilt completes the first terminator, the decode returns the bytes before it. |
| BitStrategy.CarrierExhausted | Steg.py:74-90 | If all groups were complete and none completed a terminator, the decode returns all rebuilt bytes. |
| BitStrategy.DecodeBits | Steg.py:72-90 | The outcome of the bit decoder: an index fault when no terminator is among the complete groups and bytes are left over after them; otherwise the stopping rule applied to the rebuilt bytes. |
| BitStrategy.RetrieveBit | Steg.py:72-90 | Returns the bit decode of the carrier from `offset`: the bytes before the first terminator, all bytes if there is none, or `IndexOutOfRange` if it runs into an incomplete last group first. |
| BitStrategy.DecodeBitsClean | Steg.py:83-90 | A successful bit decode is a prefix of the rebuilt bytes and holds no terminator. A failed one saw no terminator. |
| BitStrategy.BitRoundTrip | Steg.py:21-90 | After a store that fits, the bit decode from the same offset returns the payload, given the overlap condition above. |
| ByteStrategy.Slot | Steg.py:58 | The position of the `k`-th byte written or read: the offset advanced `k` times by the interval. |
| ByteStrategy.SlotIsProduct | Steg.py:58 | The `k`-th slot is `offset + interval * k`. |
| ByteStrategy.SlotAdd | Steg.py:58-68 | Advancing `a` slots and then `b` more is advancing `a + b` slots, as the terminator loop continues from the payload loop's cursor. |
| ByteStrategy.SlotMono | Steg.py:58 | Slots never move backwards. |
| ByteStrategy.SlotShift | Steg.py:58 | The slots after the first are the slots that start one interval later. |
| ByteStrategy.Strided | Steg.py:95-102 | The carrier bytes the byte decoder reads: one per slot from the offset until the end of the carrier. |
| ByteStrategy.Scatter | Steg.py:49-69 | The carrier keeps its length when bytes are written into it. |
| ByteStrategy.ScatterBelow | Steg.py:52-59 | Positions before the first slot are never written. |
| ByteStrategy.ScatterPastEnd | Steg.py:53-55 | When the first slot is past the end, nothing is written. |
| ByteStrategy.ScatterAt | Steg.py:57 | With a positive interval, every slot inside the carrier holds the matching data byte. |
| ByteStrategy.ScatterUntouched | Steg.py:52-59 | A position that is none of the slots is unchanged. |
| ByteStrategy.ScatterSameSlot | Steg.py:57-58 | With a zero interval every byte goes to the same position, and the last one stays there. |
| ByteStrategy.ScatterAppend | Steg.py:49-69 | Writing the payload and then the terminator from the next slot equals writing the frame. |
| ByteStrategy.PlaceBytes | Steg.py:52-59 | Writes the data one byte per slot. It succeeds exactly when the data is empty or its last slot is inside the carrier, and then returns the next slot. The carrier becomes its scatter with the data. |
| ByteStrategy.StoreByte | Steg.py:49-69 | Fails with `CapacityExceeded` exactly when slot `len(hidden) + 5` (`offset + interval * (len(hidden) + 5)`) is at or past the end. In every case the carrier becomes its scatter with the frame. |
| ByteStrategy.StridedScatter | Steg.py:52-59 | After every byte of the data is written, reading the same slots returns the data first. |
| ByteStrategy.RetrieveByte | Steg.py:93-105 | Returns the bytes at the slots from `offset`, stopped at and cut before the first terminator. The result is a prefix of the bytes read and holds no terminator. |
| ByteStrategy.ByteRoundTrip | Steg.py:49-105 | After a store that fits with a positive interval, the byte decode with the same offset and interval returns the payload, given the overlap condition above. |
| OffsetGuard.IsImageName | Steg.py:135 | The carrier's file name ends with `.jpg`, `.jpeg` or `.png`, with exactly that case. |
| OffsetGuard.EffectiveOffset | Steg.py:135-138 | The offset used is never below the requested one. It is at least 1024 for an image name. It differs from the request only when an image name asked for less than 1024, and then it is exactly 1024. |
| OffsetGuard.EffectiveOffsetLeast | Steg.py:135-138 | The offset used is the least one that is at least the request, and at least 1024 for an image name. |
| OffsetGuard.EffectiveOffsetIdempotent | Steg.py:135-138 | Applying the guard twice gives the same offset as once. |
| OffsetGuard.ImageExtensions | Steg.py:135 | Names ending in `.jpg`, `.jpeg` or `.png` are image names. |
| OffsetGuard.UpperCaseNotGuarded | Steg.py:135-136 | The match is case-sensitive: `photo.JPG` keeps offset 0, while `photo.jpg` gets 1024. |
| Scenarios.ScenarioBit | Steg.py:21-90 | Payload `41` at offset 0 of 64 zero bytes uses 56 bytes and decodes back to `41`. |
| Scenarios.ScenarioByteLayout | Steg.py:49-69 | Payload `01 02` at offset 0 with interval 2 in 20 zero bytes lands at positions 0 and 2, and terminator byte `k` lands at position `4 + 2k`. |
| Scenarios.ScenarioByteUntouched | Steg.py:49-69 | The same store leaves every odd position and every position past 14 zero. |
| Scenarios.ScenarioByte | Steg.py:49-105 | The same store fits, its last slot being 14 of 20, and it decodes back to `01 02`. |

## Left out

- Reading files and writing to standard output (Steg.py:7-18, 90, 105). The
  carrier is an array, the payload a sequence, and decoders return their
  result instead of writing it.
- Command-line parsing and dispatch in `main` (Steg.py:107-168). The guard is
  modelled as `OffsetGuard.EffectiveOffset` on the file name and the requested
  offset. Choosing between modes and strategies is not modelled.
- Messages and process exit. Each exit on an encoder error is the result
  `Fail(CapacityExceeded)`. The carrier is left as written so far, as in the
  source, where the partly written buffer is simply never output.
- Negative offsets and intervals. Python's negative indexing would wrap them
  around, but the model takes `nat`, so these inputs cannot be expressed.
- ByteStrategy.RetrieveByte: requires a positive interval unless the offset is
  already past the end. With interval 0 the source loops forever.
- ByteStrategy.ScatterAt: stated for a positive interval only. A zero interval
  is covered separately by `ScatterSameSlot`.
- OffsetGuard.EffectiveOffset: the offset stays an unbounded integer, while
  the strategies take a `nat`. A negative offset for a non-image carrier is
  not passed on to them.
