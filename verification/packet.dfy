/** Layout and validation of the 64-byte WITRN report packet (witrn.go). */
module Packet {
  import opened Bytes

  const PacketLength: nat := 64

  // Field offsets used by the decoder. The offset named for seconds is part
  // of the layout but the decoder never reads it (see `Clock`).
  const OffsetHeader: nat := 0
  const OffsetTimestampSec: nat := 2
  const OffsetTimestampMSec: nat := 3
  const OffsetTimestampMSecMod100: nat := 6
  const OffsetVoltage: nat := 46
  const OffsetCurrent: nat := 50
  const PayloadChecksumOffset: nat := 62
  const HeaderChecksumOffset: nat := 63

  /** The two signature bytes every packet starts with. */
  const Signature0: byte := 0xFF
  const Signature1: byte := 0x55

  /** Bytes 0..7: the header covered by the header checksum. */
  function HeaderBytes(p: seq<byte>): (header: seq<byte>)
    requires |p| == PacketLength
  {
    p[OffsetHeader..8]
  }

  /** Bytes 8..61: the payload covered by the payload checksum. */
  function PayloadBytes(p: seq<byte>): (payload: seq<byte>)
    requires |p| == PacketLength
  {
    p[8..PayloadChecksumOffset]
  }

  /** `isValidPacket`: length, signature, then the two-tier checksum computed
      with wrapping byte accumulators. The header accumulator has the payload
      accumulator added to it before it is compared with byte 63. */
  function IsValidPacket(p: seq<byte>): (ok: bool)
    ensures |p| != PacketLength ==> !ok
    ensures (|p| == PacketLength
      && (p[OffsetHeader] != Signature0 || p[OffsetHeader + 1] != Signature1)) ==> !ok
    ensures ok <==>
      && |p| == PacketLength
      && p[OffsetHeader] == Signature0 && p[OffsetHeader + 1] == Signature1
      && Sum(PayloadBytes(p)) % 256 == p[PayloadChecksumOffset]
      && (Sum(HeaderBytes(p)) + Sum(PayloadBytes(p))) % 256 == p[HeaderChecksumOffset]
  {
    if |p| != PacketLength then false
    else if p[OffsetHeader] != Signature0 || p[OffsetHeader + 1] != Signature1 then false
    else
      var packetChecksum := WrappingSum(HeaderBytes(p));
      var payloadChecksum := WrappingSum(PayloadBytes(p));
      ModAddRight(Sum(HeaderBytes(p)), Sum(PayloadBytes(p)));
      var packetChecksum' := (packetChecksum + payloadChecksum) % 256;
      packetChecksum' == p[HeaderChecksumOffset] && payloadChecksum == p[PayloadChecksumOffset]
  }

  /** Reducing both operands modulo 256 first does not change a sum modulo 256. */
  lemma ModAddRight(a: nat, b: nat)
    ensures (a % 256 + b % 256) % 256 == (a + b) % 256
  {
    ModAddLeft(a, b % 256);
    ModAddLeft(b, a);
  }

  /** The 64-byte packet whose first 62 bytes are `body` and whose last two
      bytes hold the payload and header checksums the device would send. */
  function Seal(body: seq<byte>): (p: seq<byte>)
    requires |body| == PayloadChecksumOffset
    ensures |p| == PacketLength && p[..PayloadChecksumOffset] == body
  {
    var payload := Sum(body[8..]) % 256;
    body + [payload, (Sum(body[..8]) + payload) % 256]
  }

  /** A packet is accepted exactly when it carries the signature and its two
      checksum bytes are the ones `Seal` computes from the other 62 bytes. */
  lemma ValidIffSealed(p: seq<byte>)
    ensures IsValidPacket(p) <==>
      |p| == PacketLength && p[OffsetHeader] == Signature0 && p[OffsetHeader + 1] == Signature1
      && p == Seal(p[..PayloadChecksumOffset])
  {
    if |p| == PacketLength {
      var body := p[..PayloadChecksumOffset];
      assert body[8..] == p[8..62];
      assert body[..8] == p[0..8];
      ModAddLeft(Sum(p[8..62]), Sum(p[0..8]));
      if p == Seal(body) {
        assert p[62] == Seal(body)[62];
        assert p[63] == Seal(body)[63];
      }
    }
  }

  /** Any 64-byte frame carrying the signature becomes valid once sealed. */
  lemma SealedIsValid(body: seq<byte>)
    requires |body| == PayloadChecksumOffset
    requires body[OffsetHeader] == Signature0 && body[OffsetHeader + 1] == Signature1
    ensures IsValidPacket(Seal(body))
  {
    var p := Seal(body);
    assert p[..PayloadChecksumOffset] == body;
    ValidIffSealed(p);
  }

  /** Changing any single byte among bytes 0..61 of a valid packet makes it
      invalid: a payload byte breaks the payload checksum, a header byte the
      signature or the header checksum. */
  lemma {:induction false} SingleByteCorruptionRejected(p: seq<byte>, i: nat, v: byte)
    requires IsValidPacket(p)
    requires i < PayloadChecksumOffset && v != p[i]
    ensures !IsValidPacket(p[i := v])
  {
    var q := p[i := v];
    if i >= 8 {
      assert q[0..8] == p[0..8];
      assert q[8..62] == p[8..62][i - 8 := v];
      SumUpdate(p[8..62], i - 8, v);
      DiffNotMultiple(Sum(q[8..62]), Sum(p[8..62]), v - p[i]);
    } else if i >= 2 {
      assert q[8..62] == p[8..62];
      assert q[0..8] == p[0..8][i := v];
      SumUpdate(p[0..8], i, v);
      DiffNotMultiple(Sum(q[0..8]) + Sum(q[8..62]), Sum(p[0..8]) + Sum(p[8..62]), v - p[i]);
    }
  }

  /** Two numbers that differ by a nonzero amount below 256 in magnitude
      differ modulo 256. */
  lemma DiffNotMultiple(x: int, y: int, d: int)
    requires x == y + d
    requires -256 < d < 256 && d != 0
    ensures x % 256 != y % 256
  {
  }
}
