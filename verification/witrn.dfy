/** `witrnDevice.Read` after the HID read: validate the packet, then stamp it
    and decode the raw voltage and current words. */
module Witrn {
  import opened Wrappers
  import opened Bytes
  import opened Packet
  import opened Clock

  /** A decoded sample. Voltage and current are the raw little-endian 32-bit
      words the source hands to `math.Float32frombits`. */
  datatype Sample = Sample(timestamp: int, voltage: nat, current: nat)

  /** The one error the decoder reports ("invalid packet"). */
  datatype ReadError = InvalidPacket

  /** The outcome of one read together with the device's clock state after it. */
  datatype ReadResult = ReadResult(sample: Result<Sample, ReadError>, state: ClockState)

  /** `Read` on the bytes the transport returned, at wall-clock time `now`.
      A rejected packet leaves the clock state untouched. */
  function Read(s: ClockState, packet: seq<byte>, now: int): (r: ReadResult)
    ensures !IsValidPacket(packet) ==> r.sample == Failure(InvalidPacket) && r.state == s
    ensures IsValidPacket(packet) ==>
      && r.sample.Success?
      && Stamp(r.sample.value.timestamp, r.state) == ComputeTimestamp(s, packet, now)
      && r.sample.value.voltage < 0x1_0000_0000
      && r.sample.value.current < 0x1_0000_0000
      && LeBytes(r.sample.value.voltage) == packet[OffsetVoltage..OffsetVoltage + 4]
      && LeBytes(r.sample.value.current) == packet[OffsetCurrent..OffsetCurrent + 4]
  {
    if !IsValidPacket(packet) then ReadResult(Failure(InvalidPacket), s)
    else
      var stamp := ComputeTimestamp(s, packet, now);
      var voltage := LeUint32(packet[OffsetVoltage..]);
      var current := LeUint32(packet[OffsetCurrent..]);
      LeRoundTripBytes(packet[OffsetVoltage..OffsetVoltage + 4]);
      LeRoundTripBytes(packet[OffsetCurrent..OffsetCurrent + 4]);
      ReadResult(Success(Sample(stamp.timestamp, voltage, current)), stamp.state)
  }

  /** The samples of a sequence of reads and the final clock state. */
  datatype SessionResult = SessionResult(samples: seq<Result<Sample, ReadError>>, state: ClockState)

  /** Successive `Read` calls on one device, each on its own packet and
      wall-clock reading. */
  function Session(s: ClockState, ticks: seq<Tick>): (r: SessionResult)
    ensures |r.samples| == |ticks|
    ensures forall i :: 0 <= i < |ticks| ==> (r.samples[i].Success? <==> IsValidPacket(ticks[i].data))
    decreases |ticks|
  {
    if |ticks| == 0 then SessionResult([], s)
    else
      var first := Read(s, ticks[0].data, ticks[0].now);
      var rest := Session(first.state, ticks[1..]);
      SessionResult([first.sample] + rest.samples, rest.state)
  }

  /** The ticks whose packets are accepted, in order. */
  function ValidTicks(ticks: seq<Tick>): (v: seq<Tick>)
    ensures |v| <= |ticks|
    ensures forall i :: 0 <= i < |v| ==> IsValidPacket(v[i].data) && |v[i].data| == PacketLength
    ensures forall t :: t in v <==> t in ticks && IsValidPacket(t.data)
    decreases |ticks|
  {
    if |ticks| == 0 then []
    else if IsValidPacket(ticks[0].data) then [ticks[0]] + ValidTicks(ticks[1..])
    else ValidTicks(ticks[1..])
  }

  /** Rejected packets never move the clock: a session ends in the state that
      running the clock over the accepted packets alone reaches. */
  lemma {:induction false} SessionClockSeesOnlyValid(s: ClockState, ticks: seq<Tick>)
    ensures Session(s, ticks).state == Run(s, ValidTicks(ticks))
    decreases |ticks|
  {
    if |ticks| > 0 {
      var first := Read(s, ticks[0].data, ticks[0].now);
      SessionClockSeesOnlyValid(first.state, ticks[1..]);
      if IsValidPacket(ticks[0].data) {
        var v := ValidTicks(ticks);
        assert v[0] == ticks[0] && v[1..] == ValidTicks(ticks[1..]);
      }
    }
  }

  /** A session that accepts some packet ends with its epoch set, and a
      session never changes an epoch that was already set. */
  lemma SessionEpochSetOnce(s: ClockState, ticks: seq<Tick>)
    ensures (exists i :: 0 <= i < |ticks| && IsValidPacket(ticks[i].data)) ==>
      Session(s, ticks).state.epoch.Some?
    ensures s.epoch.Some? ==> Session(s, ticks).state.epoch == s.epoch
  {
    SessionClockSeesOnlyValid(s, ticks);
    if exists i :: 0 <= i < |ticks| && IsValidPacket(ticks[i].data) {
      var i :| 0 <= i < |ticks| && IsValidPacket(ticks[i].data);
      assert ticks[i] in ValidTicks(ticks);
    }
  }

  /** Sample `i` of a session is what `Read` gives for packet `i` on the
      clock state the first `i` reads left behind. */
  lemma {:induction false} SessionSampleIsRead(s: ClockState, ticks: seq<Tick>, i: nat)
    requires i < |ticks|
    ensures Session(s, ticks).samples[i]
      == Read(Session(s, ticks[..i]).state, ticks[i].data, ticks[i].now).sample
    decreases i
  {
    if i > 0 {
      var first := Read(s, ticks[0].data, ticks[0].now);
      SessionSampleIsRead(first.state, ticks[1..], i - 1);
      assert ticks[1..][..i - 1] == ticks[..i][1..];
      assert ticks[..i][0] == ticks[0];
    } else {
      assert ticks[..0] == [];
    }
  }

  /** Sample `i` of a session is `Read` of packet `i` on the clock state
      reached by the accepted packets before it alone: a rejected packet
      never changes a later sample. */
  lemma SessionSampleSeesOnlyValid(s: ClockState, ticks: seq<Tick>, i: nat)
    requires i < |ticks|
    ensures Session(s, ticks).samples[i]
      == Read(Run(s, ValidTicks(ticks[..i])), ticks[i].data, ticks[i].now).sample
  {
    SessionSampleIsRead(s, ticks, i);
    SessionClockSeesOnlyValid(s, ticks[..i]);
  }
}
