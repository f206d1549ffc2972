# WITRN USB power meter frame decoder, in Dafny

A model of the decoder for the 64-byte HID reports of the WITRN USB power
meter (`witrn.go`). It has three parts:

- **Packet validation** (`Packet.IsValidPacket`). A packet must be exactly 64 bytes long and start with
  `0xFF 0x55`. It must also pass a two-tier checksum:
  - the payload sum is bytes 8..61 added in a wrapping 8-bit accumulator, and it must equal byte 62;
  - the header sum is bytes 0..7, plus the payload sum, modulo 256, and it must equal byte 63.
- **Clock reconstruction** (`Clock.ComputeTimestamp`). The device sends an 8-bit seconds counter
  that wraps, plus a milliseconds-mod-100 hint byte. The decoder turns these into an absolute
  timestamp. It does this by threading a clock state through the calls:
  - the anchored epoch;
  - the last counter reading;
  - the number of wrap-arounds seen.
- **Read orchestration** (`Witrn.Read`, `Witrn.Session`). A packet is validated first. If it is
  rejected, the clock state is left untouched. If it is accepted, it is stamped, and the raw
  little-endian voltage and current words are taken from bytes 46..49 and 50..53.

Modules follow the program's layers: `Bytes` (byte sums and little-endian
words), `Packet` (layout constants and `isValidPacket`), `Clock`
(`computeTimestamp` and runs of it), `Witrn` (`Read`), plus `Wrappers`
(`Option`, `Result`).

Times are integer milliseconds. Go's `time.Now()` becomes the parameter `now`,
and the epoch is `None` while Go's `timestampEpoch` still holds the zero time.

As in the source, the seconds and the coarse milliseconds are both read from
byte 3 (the offset named `witrnOffsetTimestampMSec`). The byte at the offset
named for seconds (byte 2) is never read by `computeTimestamp`; it only enters
the header checksum. `Clock.OnlyClockBytesMatter` and `Clock.SecondsByteIgnored`
state this. The model keeps the behaviour as written.

The source reports every rejected packet with the same error, `invalid packet`.
A finer taxonomy (bad length, bad signature, which checksum failed) could be
described for this decoder, but the code does not have one. The model follows
the code and has the single error `InvalidPacket`.

## Model

| member | source | states |
|---|---|---|
| `Bytes.WrappingSum` | witrn.go:76-84 | Adding bytes into a Go `byte` accumulator one by one ends with the true sum of the bytes modulo 256. |
| `Bytes.LeUint32` | witrn.go:64-65 | The little-endian word read from four bytes fits in 32 bits, and its four little-endian bytes are exactly the first four bytes read. |
| `Bytes.LeRoundTrip` | witrn.go:64-65 | Encoding a 32-bit word as four little-endian bytes and decoding it again gives back the word. |
| `Bytes.LeRoundTripBytes` | witrn.go:64-65 | Decoding four bytes as a little-endian word and encoding it again gives back the bytes. |
| `Packet.IsValidPacket` | witrn.go:69-88 | A packet is rejected if its length is not 64 or its first two bytes are not `0xFF 0x55`. A 64-byte signed packet is accepted if and only if (sum of bytes 8..61) mod 256 equals byte 62 and (sum of bytes 0..7 plus that payload sum) mod 256 equals byte 63. |
| `Packet.ValidIffSealed` | witrn.go:73-86 | A packet is accepted exactly when it is 64 bytes long, carries the signature, and its bytes 62 and 63 are the payload and header checksums recomputed from bytes 0..61. |
| `Packet.SealedIsValid` | witrn.go:76-86 | Any 62 signed bytes followed by their recomputed checksums form an accepted packet. |
| `Packet.SingleByteCorruptionRejected` | witrn.go:73-86 | Changing any one of bytes 0..61 of an accepted packet to a different value makes it rejected. |
| `Clock.NextWraps` | witrn.go:95-97 | The wrap counter goes up by exactly one when the new counter byte is below 10 and the previous one was above 250. Otherwise it stays the same, so it never decreases. |
| `Clock.SearchFrom` | witrn.go:100-112 | The search returns a value in 0..999. It is the candidate `(256*j + coarse) % 1000` for the smallest `j` in range whose value mod 100 equals the hint byte, or 0 when no candidate matches. |
| `Clock.SubSecondMs` | witrn.go:100-112 | The recovered `baseMs` lies in 0..999. When some candidate matches, it agrees with the hint modulo 100. When none matches, including whenever the hint is 100 or more, it is 0. |
| `Clock.MatchUnique` | witrn.go:102-108 | At most one of the four candidates can match the hint, so the first match the loop breaks on is the only one. |
| `Clock.SubSecondRecovers` | witrn.go:100-112 | For every true millisecond value m below 1000, the coarse byte `m % 256` and the hint `m % 100` recover exactly m. |
| `Clock.ComputeTimestamp` | witrn.go:90-122 | `lastTimeS` becomes byte 3. The wrap counter rises by one exactly on a detected wrap. The epoch is set only while it is unset and never changes afterwards. The first call returns exactly `now`. The timestamp minus the epoch lies in `[(byte3 + wraps*256)*1000, (byte3 + wraps*256)*1000 + 999]`. |
| `Clock.TimestampIsEpochPlusElapsed` | witrn.go:90-121 | The timestamp is the epoch plus `(byte3 + wraps*256)*1000 + baseMs`. Byte 3 serves as both the seconds and the coarse milliseconds. A first call anchors the epoch at `now` minus that elapsed value. |
| `Clock.ElapsedMonotone` | witrn.go:114 | With the wrap count fixed, a larger byte 3 gives strictly more elapsed milliseconds, whatever the hint bytes are. |
| `Clock.OnlyClockBytesMatter` | witrn.go:90-93 | The timestamp and new clock state depend on the packet only through bytes 3 and 6. The seconds byte at offset 2 has no effect. |
| `Clock.SecondsByteIgnored` | witrn.go:90-93 | Overwriting byte 2, the offset named for seconds, changes neither the timestamp nor the new clock state. |
| `Clock.ConsecutiveTimestamps` | witrn.go:95-121 | For two consecutive packets, the second timestamp is strictly later when byte 3 advances, or when it drops from above 250 to below 10. When byte 3 advances by n, the two timestamps are n seconds apart, within 999 ms. |
| `Clock.MissedWrapGoesBackwards` | witrn.go:95-97 | A counter jump from 250 straight to 0 is not counted as a wrap, and the second timestamp comes out earlier than the first. |
| `Clock.Run` | witrn.go:95-121 | Over any sequence of packets, the wrap count never decreases. An epoch, once set, never changes. After at least one packet the epoch is set and `lastTimeS` is the last packet's byte 3. |
| `Clock.TrackStep` | witrn.go:95-98 | A reading of a true seconds count that advanced by 0 to 5 seconds moves `wraps*256 + lastTimeS` by exactly that advance. |
| `Clock.WrapTracking` | witrn.go:95-98 | When every packet's byte 3 is a true seconds count modulo 256, and the count advances by at most 5 per packet, the reconstructed whole seconds advance exactly as the true count does. Every wrap is detected and none is invented. |
| `Clock.FreshCountingRun` | witrn.go:95-98 | From a freshly opened device, when packet i's byte 3 is i mod 256, the wrap count after n packets is (n-1)/256. So the readings 0..255, 0, 1 (258 packets) count exactly one wrap. |
| `Witrn.Read` | witrn.go:58-66 | A rejected packet yields the `InvalidPacket` error and leaves the clock state unchanged. An accepted packet advances the clock exactly once. Its voltage and current are the 32-bit words whose little-endian bytes are bytes 46..49 and 50..53. |
| `Witrn.Session` | witrn.go:49-66 | A sequence of reads produces one result per packet. A result is a sample exactly when its packet is accepted. |
| `Witrn.SessionClockSeesOnlyValid` | witrn.go:58-63 | A session's final clock state is the one reached by running the clock over the accepted packets alone. |
| `Witrn.SessionSampleIsRead` | witrn.go:58-66 | Sample i of a session is exactly what `Read` returns for packet i on the clock state left by the first i reads. |
| `Witrn.SessionSampleSeesOnlyValid` | witrn.go:58-63 | Sample i of a session is `Read` of packet i on the clock state reached by the accepted packets before it alone, so a rejected packet never changes a later sample. |
| `Witrn.SessionEpochSetOnce` | witrn.go:117-121 | A session that accepts at least one packet ends with its epoch set. Every session, whether or not it accepts a packet, leaves an epoch that was already set unchanged. |

## Left out

- The HID transport in `Read` (`ReadWithTimeout` with its 500 ms timeout and the buffer it reuses) and `Close`. These are I/O through a foreign library. The packet bytes the transport returned are a parameter instead.
- `math.Float32frombits`. This is the IEEE-754 interpretation of voltage and current. The model stops at the raw 32-bit words.
- `time.Time` and `time.Now`. These are replaced by integer milliseconds and the parameter `now`. Go keeps a monotonic clock reading in `time.Time`; it is not modelled.
- Go treats a computed epoch that happens to equal the zero `time.Time` as still unset. The model uses `Option` and does not reproduce that unreachable coincidence.
- 64-bit overflow of `time.Duration` (nanoseconds) in `msSinceEpoch * time.Millisecond`. It needs about 290 years of wrap-arounds, and the model's integers are unbounded.
- The layout constants for fields the decoder never reads: charge, energy, record time, data-line voltages and the unknown words. They are covered only as checksum bytes.
- device.go (`OpenDevice`: HID enumeration and opening), which is I/O.
- cmd/usbpower/main.go: flag parsing, JSON output and the float64 statistics. This is command-line plumbing and floating-point arithmetic.
