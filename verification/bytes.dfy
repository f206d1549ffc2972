/** Bytes, byte sums and little-endian words, as the decoder uses them. */
module Bytes {

  /** Go's `byte`: an unsigned 8-bit value. */
  type byte = x: int | 0 <= x < 256

  /** The mathematical (unbounded) sum of a byte sequence. */
  function Sum(s: seq<byte>): (total: nat)
  {
    if |s| == 0 then 0 else Sum(s[..|s| - 1]) + s[|s| - 1]
  }

  /** The value a Go `byte` accumulator holds after `c += s[i]` for every `i` in
      order: each addition wraps modulo 256. Its contract ties it to `Sum`. */
  function WrappingSum(s: seq<byte>): (c: byte)
    ensures c == Sum(s) % 256
  {
    if |s| == 0 then 0
    else
      var prefix := WrappingSum(s[..|s| - 1]);
      ModAddLeft(Sum(s[..|s| - 1]), s[|s| - 1]);
      (prefix + s[|s| - 1]) % 256
  }

  /** Reducing the left operand modulo 256 first does not change a sum modulo 256. */
  lemma ModAddLeft(a: nat, b: nat)
    ensures (a % 256 + b) % 256 == (a + b) % 256
  {
    var q := a / 256;
    assert a == q * 256 + a % 256;
    assert a + b == q * 256 + (a % 256 + b);
  }

  /** Overwriting one byte changes the sum by exactly the difference. */
  lemma {:induction false} SumUpdate(s: seq<byte>, i: nat, v: byte)
    requires i < |s|
    ensures Sum(s[i := v]) == Sum(s) - s[i] + v
    decreases |s|
  {
    var t := s[i := v];
    if i == |s| - 1 {
      assert t[..|t| - 1] == s[..|s| - 1];
    } else {
      assert t[..|t| - 1] == s[..|s| - 1][i := v];
      SumUpdate(s[..|s| - 1], i, v);
    }
  }

  /** Go's `binary.LittleEndian.Uint32`: the first four bytes, least significant first. */
  function LeUint32(b: seq<byte>): (w: nat)
    requires |b| >= 4
    ensures w < 0x1_0000_0000
    ensures w % 256 == b[0] && w / 0x100_0000 == b[3]
    ensures LeBytes(w) == b[..4]
  {
    var b0: int, b1: int, b2: int, b3: int := b[0], b[1], b[2], b[3];
    var w2 := b2 + 0x100 * b3;
    var w1 := b1 + 0x100 * w2;
    var w := b0 + 0x100 * w1;
    DivUnique(w, 0x100, w1, b0);
    DivUnique(w1, 0x100, w2, b1);
    DivUnique(w2, 0x100, b3, b2);
    DivUnique(w, 0x1_0000, w2, b0 + 0x100 * b1);
    DivUnique(w, 0x100_0000, b3, b0 + 0x100 * b1 + 0x1_0000 * b2);
    w
  }

  /** The four little-endian bytes of a 32-bit word (the inverse of `LeUint32`). */
  function LeBytes(w: nat): (b: seq<byte>)
    requires w < 0x1_0000_0000
    ensures |b| == 4
  {
    [w % 0x100, (w / 0x100) % 0x100, (w / 0x1_0000) % 0x100, w / 0x100_0000]
  }

  /** Encoding a word and decoding it again gives back the word. */
  lemma LeRoundTrip(w: nat)
    requires w < 0x1_0000_0000
    ensures LeUint32(LeBytes(w)) == w
  {
    var b := LeBytes(w);
    assert w == w % 0x100 + 0x100 * (w / 0x100);
    assert w / 0x100 == (w / 0x100) % 0x100 + 0x100 * (w / 0x1_0000);
    assert w / 0x1_0000 == (w / 0x1_0000) % 0x100 + 0x100 * (w / 0x100_0000);
  }

  /** Decoding four bytes and encoding the word again gives back the bytes. */
  lemma LeRoundTripBytes(b: seq<byte>)
    requires |b| == 4
    ensures LeBytes(LeUint32(b)) == b
  {
    assert b[..4] == b;
  }

  /** Quotient and remainder are determined by `x == q * k + r` with `0 <= r < k`. */
  lemma DivUnique(x: int, k: int, q: int, r: int)
    requires 0 <= r < k
    requires x == q * k + r
    ensures x / k == q && x % k == r
  {
    var q', r' := x / k, x % k;
    if q != q' {
      var d := if q > q' then q - q' else q' - q;
      MulAtLeast(d, k);
      Distribute(q, q', k);
      assert false;
    }
  }

  lemma MulAtLeast(d: int, k: int)
    requires d >= 1 && k > 0
    ensures d * k >= k
  {
  }

  lemma Distribute(a: int, b: int, k: int)
    ensures (a - b) * k == a * k - b * k
    ensures (b - a) * k == b * k - a * k
  {
  }
}
