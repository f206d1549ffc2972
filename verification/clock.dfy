/** Reconstruction of absolute timestamps from the device's wrapping clock
    bytes (`computeTimestamp` in witrn.go). Times are integer milliseconds;
    the wall clock is the parameter `now`. */
module Clock {
  import opened Wrappers
  import opened Bytes
  import opened Packet

  /** The per-device clock fields of `witrnDevice`: the anchored epoch (None
      while Go's `timestampEpoch` is still the zero time), the last byte-3
      reading and the number of counter wrap-arounds seen. */
  datatype ClockState = ClockState(epoch: Option<int>, lastTimeS: int, wraps: nat)

  /** The state of a freshly opened device: Go's zero values. */
  const Fresh := ClockState(None, 0, 0)

  /** A timestamp together with the clock state after computing it. */
  datatype Stamp = Stamp(timestamp: int, state: ClockState)

  /** One packet's bytes with the wall-clock reading taken when it is decoded. */
  datatype Tick = Tick(data: seq<byte>, now: int)

  /** The wrap counter after reading `timeS`: one more exactly when the
      counter drops below 10 from a previous reading above 250. */
  function NextWraps(s: ClockState, timeS: int): (w: nat)
    ensures s.wraps <= w <= s.wraps + 1
    ensures w == s.wraps + 1 <==> timeS < 10 && s.lastTimeS > 250
  {
    if timeS < 10 && s.lastTimeS > 250 then s.wraps + 1 else s.wraps
  }

  /** The `j`-th candidate for the true sub-second milliseconds given the
      coarse millisecond byte. */
  function Candidate(j: nat, timeMs: int): (ms: int)
  {
    (256 * j + timeMs) % 1000
  }

  /** Whether candidate `j` agrees with the device's milliseconds-mod-100 byte. */
  predicate Matches(j: nat, timeMs: int, mod100: int)
  {
    Candidate(j, timeMs) % 100 == mod100
  }

  /** The search loop over `j` from the given start up to 3: the first
      matching candidate, or 0 when none matches. */
  function SearchFrom(j: nat, timeMs: byte, mod100: byte): (ms: int)
    requires j <= 4
    ensures 0 <= ms < 1000
    ensures forall k: nat ::
      j <= k <= 3 && Matches(k, timeMs, mod100)
      && (forall l: nat :: j <= l < k ==> !Matches(l, timeMs, mod100))
      ==> ms == Candidate(k, timeMs)
    ensures (forall k: nat :: j <= k <= 3 ==> !Matches(k, timeMs, mod100)) ==> ms == 0
    decreases 4 - j
  {
    if j > 3 then 0
    else if Matches(j, timeMs, mod100) then Candidate(j, timeMs)
    else SearchFrom(j + 1, timeMs, mod100)
  }

  /** The recovered sub-second milliseconds (`baseMs`). */
  function SubSecondMs(timeMs: byte, mod100: byte): (ms: int)
    ensures 0 <= ms <= 999
    ensures (exists j: nat :: j <= 3 && Matches(j, timeMs, mod100)) ==> ms % 100 == mod100
    ensures (forall j: nat :: j <= 3 ==> !Matches(j, timeMs, mod100)) ==> ms == 0
    ensures mod100 >= 100 ==> ms == 0
  {
    SearchFrom(0, timeMs, mod100)
  }

  /** Among the four candidates at most one matches: they are pairwise
      distinct modulo 100, so "the first match" is "the match". */
  lemma MatchUnique(j: nat, k: nat, timeMs: byte, mod100: byte)
    requires j <= 3 && k <= 3
    requires Matches(j, timeMs, mod100) && Matches(k, timeMs, mod100)
    ensures j == k
  {
    var cj, ck := 256 * j + timeMs, 256 * k + timeMs;
    assert Candidate(j, timeMs) == if cj < 1000 then cj else cj - 1000;
    assert Candidate(k, timeMs) == if ck < 1000 then ck else ck - 1000;
    if j != k {
      StepsDifferModulo100(j, k, Candidate(j, timeMs), Candidate(k, timeMs), cj, ck);
    }
  }

  /** Candidates for different steps differ by `256 * (j - k)`, possibly
      minus 1000, which is never a multiple of 100 for steps in 0..3. */
  lemma StepsDifferModulo100(j: nat, k: nat, x: int, y: int, cj: int, ck: int)
    requires j <= 3 && k <= 3 && j != k
    requires cj - ck == 256 * (j - k)
    requires x == cj || x == cj - 1000
    requires y == ck || y == ck - 1000
    ensures x % 100 != y % 100
  {
    var d := x - y;
    assert d % 100 != 0 by {
      var s := j - k;
      assert s == 1 || s == 2 || s == 3 || s == -1 || s == -2 || s == -3;
    }
    DiffMod100(x, y);
  }

  /** Equal residues modulo 100 mean the difference is a multiple of 100. */
  lemma DiffMod100(x: int, y: int)
    ensures x % 100 == y % 100 ==> (x - y) % 100 == 0
  {
    if x % 100 == y % 100 {
      assert x - y == (x / 100 - y / 100) * 100;
    }
  }

  /** Sub-second recovery is exact: for any true millisecond value `m` below
      1000, the coarse byte `m % 256` and the hint `m % 100` give back `m`. */
  lemma {:induction false} SubSecondRecovers(m: int)
    requires 0 <= m < 1000
    ensures SubSecondMs(m % 256, m % 100) == m
  {
    var t, j := m % 256, m / 256;
    assert m == 256 * j + t;
    assert Candidate(j, t) == m;
    assert Matches(j, t, m % 100);
    forall l: nat | l < j
      ensures !Matches(l, t, m % 100)
    {
      if Matches(l, t, m % 100) {
        MatchUnique(l, j, t, m % 100);
      }
    }
  }

  /** Milliseconds since the device clock's origin: whole seconds including
      the wrap-arounds, plus the sub-second part. */
  function ElapsedMs(timeS: int, wraps: nat, baseMs: int): (ms: int)
  {
    (timeS + wraps * 256) * 1000 + baseMs
  }

  /** `computeTimestamp`. Both the seconds and the coarse milliseconds are
      read from byte 3, as the source does; byte 2 is never read. */
  function ComputeTimestamp(s: ClockState, data: seq<byte>, now: int): (r: Stamp)
    requires |data| > OffsetTimestampMSecMod100
    ensures r.state.lastTimeS == data[OffsetTimestampMSec]
    ensures r.state.wraps == s.wraps + 1 <==> data[OffsetTimestampMSec] < 10 && s.lastTimeS > 250
    ensures s.wraps <= r.state.wraps <= s.wraps + 1
    ensures r.state.epoch.Some?
    ensures s.epoch.Some? ==> r.state.epoch == s.epoch
    ensures s.epoch.None? ==> r.timestamp == now
    ensures var whole := (data[OffsetTimestampMSec] + r.state.wraps * 256) * 1000;
      whole <= r.timestamp - r.state.epoch.value <= whole + 999
  {
    var timeS := data[OffsetTimestampMSec];
    var timeMs := data[OffsetTimestampMSec];
    var timeMsMod100 := data[OffsetTimestampMSecMod100];
    var wraps := NextWraps(s, timeS);
    var baseMs := SubSecondMs(timeMs, timeMsMod100);
    var msSinceEpoch := ElapsedMs(timeS, wraps, baseMs);
    var epoch := if s.epoch.None? then now - msSinceEpoch else s.epoch.value;
    Stamp(epoch + msSinceEpoch, ClockState(Some(epoch), timeS, wraps))
  }

  /** The timestamp is the anchored epoch plus the elapsed milliseconds,
      with byte 3 supplying both the seconds and the coarse milliseconds. */
  lemma TimestampIsEpochPlusElapsed(s: ClockState, data: seq<byte>, now: int)
    requires |data| > OffsetTimestampMSecMod100
    ensures var r := ComputeTimestamp(s, data, now);
      r.timestamp == r.state.epoch.value
        + ElapsedMs(data[OffsetTimestampMSec], r.state.wraps,
                    SubSecondMs(data[OffsetTimestampMSec], data[OffsetTimestampMSecMod100]))
    ensures s.epoch.None? ==>
      ComputeTimestamp(s, data, now).state.epoch
        == Some(now - ElapsedMs(data[OffsetTimestampMSec], NextWraps(s, data[OffsetTimestampMSec]),
                                SubSecondMs(data[OffsetTimestampMSec], data[OffsetTimestampMSecMod100])))
  {
  }

  /** With the wrap count fixed, a larger byte 3 gives strictly more elapsed
      milliseconds, whatever the hint bytes say. */
  lemma ElapsedMonotone(t1: byte, t2: byte, wraps: nat, h1: byte, h2: byte)
    requires t1 < t2
    ensures ElapsedMs(t1, wraps, SubSecondMs(t1, h1)) < ElapsedMs(t2, wraps, SubSecondMs(t2, h2))
  {
  }

  /** The result depends on the packet only through bytes 3 and 6; in
      particular the seconds byte at offset 2 is ignored. */
  lemma OnlyClockBytesMatter(s: ClockState, d1: seq<byte>, d2: seq<byte>, now: int)
    requires |d1| > OffsetTimestampMSecMod100 && |d2| > OffsetTimestampMSecMod100
    requires d1[OffsetTimestampMSec] == d2[OffsetTimestampMSec]
    requires d1[OffsetTimestampMSecMod100] == d2[OffsetTimestampMSecMod100]
    ensures ComputeTimestamp(s, d1, now) == ComputeTimestamp(s, d2, now)
  {
  }

  /** Overwriting the seconds byte (offset 2) changes neither the timestamp
      nor the new clock state. */
  lemma SecondsByteIgnored(s: ClockState, data: seq<byte>, v: byte, now: int)
    requires |data| > OffsetTimestampMSecMod100
    ensures ComputeTimestamp(s, data[OffsetTimestampSec := v], now) == ComputeTimestamp(s, data, now)
  {
    OnlyClockBytesMatter(s, data[OffsetTimestampSec := v], data, now);
  }

  /** Two consecutive packets: when byte 3 advances, or falls from above 250
      to below 10, the second timestamp is strictly later; when byte 3 advances
      by `n` seconds the timestamps are `n` seconds apart give or take 999 ms. */
  lemma ConsecutiveTimestamps(s: ClockState, d1: seq<byte>, n1: int, d2: seq<byte>, n2: int)
    requires |d1| > OffsetTimestampMSecMod100 && |d2| > OffsetTimestampMSecMod100
    requires d1[OffsetTimestampMSec] < d2[OffsetTimestampMSec]
      || (d1[OffsetTimestampMSec] > 250 && d2[OffsetTimestampMSec] < 10)
    ensures var r1 := ComputeTimestamp(s, d1, n1);
      var r2 := ComputeTimestamp(r1.state, d2, n2);
      && r2.timestamp > r1.timestamp
      && (d1[OffsetTimestampMSec] < d2[OffsetTimestampMSec] ==>
            var gap := (d2[OffsetTimestampMSec] as int - d1[OffsetTimestampMSec] as int) * 1000;
            gap - 999 <= r2.timestamp - r1.timestamp <= gap + 999)
  {
    var r1 := ComputeTimestamp(s, d1, n1);
    var r2 := ComputeTimestamp(r1.state, d2, n2);
    TimestampIsEpochPlusElapsed(s, d1, n1);
    TimestampIsEpochPlusElapsed(r1.state, d2, n2);
    var w := r1.state.wraps;
    var t1, t2 := d1[OffsetTimestampMSec] as int, d2[OffsetTimestampMSec] as int;
    var b1 := SubSecondMs(d1[OffsetTimestampMSec], d1[OffsetTimestampMSecMod100]);
    var b2 := SubSecondMs(d2[OffsetTimestampMSec], d2[OffsetTimestampMSecMod100]);
    var e := r1.state.epoch.value;
    assert r1.timestamp == e + ElapsedMs(t1, w, b1);
    assert r2.state.epoch.value == e;
    if t1 < t2 {
      assert r2.state.wraps == w;
      assert r2.timestamp == e + ElapsedMs(t2, w, b2);
      SecondsApart(t1, t2, w, b1, b2);
    } else {
      assert r2.state.wraps == w + 1;
      assert r2.timestamp == e + ElapsedMs(t2, w + 1, b2);
      SecondsApart(t1, t2 + 256, w, b1, b2);
      assert ElapsedMs(t2, w + 1, b2) == ElapsedMs(t2 + 256, w, b2);
    }
  }

  /** Elapsed milliseconds under one wrap count differ by the seconds
      difference plus the sub-second difference. */
  lemma SecondsApart(t1: int, t2: int, w: nat, b1: int, b2: int)
    ensures ElapsedMs(t2, w, b2) - ElapsedMs(t1, w, b1) == (t2 - t1) * 1000 + (b2 - b1)
    ensures ElapsedMs(t2 - 256, w + 1, b2) == ElapsedMs(t2, w, b2)
  {
  }

  /** The detection window is six readings wide: if the counter goes from 250
      straight to 0 (six seconds later) no wrap is counted and the second
      timestamp comes out earlier than the first. */
  lemma MissedWrapGoesBackwards(s: ClockState, d1: seq<byte>, n1: int, d2: seq<byte>, n2: int)
    requires |d1| > OffsetTimestampMSecMod100 && |d2| > OffsetTimestampMSecMod100
    requires d1[OffsetTimestampMSec] == 250 && d2[OffsetTimestampMSec] == 0
    ensures var r1 := ComputeTimestamp(s, d1, n1);
      var r2 := ComputeTimestamp(r1.state, d2, n2);
      r2.state.wraps == r1.state.wraps && r2.timestamp < r1.timestamp
  {
  }

  /** A run of `computeTimestamp` over a sequence of packets. */
  function Run(s: ClockState, ticks: seq<Tick>): (r: ClockState)
    requires forall i :: 0 <= i < |ticks| ==> |ticks[i].data| > OffsetTimestampMSecMod100
    ensures r.wraps >= s.wraps
    ensures s.epoch.Some? ==> r.epoch == s.epoch
    ensures |ticks| > 0 ==> r.epoch.Some? && r.lastTimeS == ticks[|ticks| - 1].data[OffsetTimestampMSec]
    ensures |ticks| == 0 ==> r == s
    decreases |ticks|
  {
    if |ticks| == 0 then s
    else Run(ComputeTimestamp(s, ticks[0].data, ticks[0].now).state, ticks[1..])
  }

  /** One reading of a true seconds count advancing by at most five seconds
      keeps `wraps * 256 + lastTimeS` equal to the true count (up to a fixed
      offset). */
  lemma TrackStep(s: ClockState, prev: int, cur: int)
    requires s.lastTimeS == prev % 256
    requires prev <= cur <= prev + 5
    ensures NextWraps(s, cur % 256) * 256 + cur % 256 == s.wraps * 256 + s.lastTimeS + (cur - prev)
  {
    var a, d := prev % 256, cur - prev;
    if a + d < 256 {
      DivUnique(cur, 256, prev / 256, a + d);
    } else {
      DivUnique(cur, 256, prev / 256 + 1, a + d - 256);
    }
  }

  /** Whenever consecutive packets are at most five seconds apart on the
      device's seconds counter, the reconstructed whole seconds
      `wraps * 256 + lastTimeS` advance exactly as the true count does:
      every wrap is detected and no wrap is invented. `T[0]` is the count
      behind the state's last reading, `T[i + 1]` the count behind packet `i`. */
  lemma {:induction false} WrapTracking(s: ClockState, ticks: seq<Tick>, T: seq<int>)
    requires forall i :: 0 <= i < |ticks| ==> |ticks[i].data| > OffsetTimestampMSecMod100
    requires |T| == |ticks| + 1
    requires s.lastTimeS == T[0] % 256
    requires forall i :: 0 <= i < |ticks| ==> ticks[i].data[OffsetTimestampMSec] == T[i + 1] % 256
    requires forall i :: 0 <= i < |ticks| ==> T[i] <= T[i + 1] <= T[i] + 5
    ensures var r := Run(s, ticks);
      r.wraps * 256 + r.lastTimeS == s.wraps * 256 + s.lastTimeS + (T[|ticks|] - T[0])
    decreases |ticks|
  {
    if |ticks| > 0 {
      var s' := ComputeTimestamp(s, ticks[0].data, ticks[0].now).state;
      TrackStep(s, T[0], T[1]);
      assert s'.wraps == NextWraps(s, T[1] % 256);
      WrapTracking(s', ticks[1..], T[1..]);
    }
  }

  /** From a freshly opened device, packets whose byte 3 counts 0, 1, 2, ...
      one per packet leave exactly one wrap counted per completed lap of the
      counter: after the readings 0..255, 0, 1 (258 packets) `wraps` is 1. */
  lemma FreshCountingRun(ticks: seq<Tick>)
    requires |ticks| > 0
    requires forall i :: 0 <= i < |ticks| ==> |ticks[i].data| > OffsetTimestampMSecMod100
    requires forall i :: 0 <= i < |ticks| ==> ticks[i].data[OffsetTimestampMSec] == i % 256
    ensures Run(Fresh, ticks).wraps == (|ticks| - 1) / 256
    ensures Run(Fresh, ticks).lastTimeS == (|ticks| - 1) % 256
  {
    var T := seq(|ticks| + 1, k => if k == 0 then 0 else k - 1);
    assert forall i :: 0 <= i < |ticks| ==> T[i] <= T[i + 1] <= T[i] + 5;
    WrapTracking(Fresh, ticks, T);
    var r := Run(Fresh, ticks);
    DivUnique(|ticks| - 1, 256, r.wraps, r.lastTimeS);
  }
}
