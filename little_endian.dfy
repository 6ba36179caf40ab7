/** Bytes and the little-endian integer fields of the ZIP format. */
module LittleEndian {

  /** One element of a `Uint8Array`. */
  type byte = b: int | 0 <= b < 256

  const TWO_8: nat := 0x100
  const TWO_16: nat := 0x1_0000
  const TWO_32: nat := 0x1_0000_0000

  /** The value of a little-endian byte sequence: the first byte is the least significant. */
  function Le(bs: seq<byte>): nat
  {
    if bs == [] then 0 else bs[0] + 256 * Le(bs[1..])
  }

  /** The two-byte unrolling of `Le`. */
  lemma Le2(bs: seq<byte>)
    requires |bs| == 2
    ensures Le(bs) == bs[0] as int + 0x100 * bs[1] as int
  {
    assert Le(bs[1..]) == bs[1] by { assert bs[1..][1..] == []; }
  }

  lemma MulAtLeast(m: int, a: int)
    requires m > 0 && a >= 1
    ensures m * a >= m
  {
    assert m * a == m * (a - 1) + m;
    assert m * (a - 1) >= 0;
  }

  /** Euclidean division is determined by its quotient and remainder. */
  lemma DivModUnique(n: int, m: int, t: int, x: int)
    requires m > 0 && 0 <= x < m && n == m * t + x
    ensures n / m == t && n % m == x
  {
    var q, r := n / m, n % m;
    assert n == m * q + r;
    assert m * (q - t) == x - r by {
      assert m * q - m * t == m * (q - t);
    }
    if q > t {
      MulAtLeast(m, q - t);
    } else if q < t {
      MulAtLeast(m, t - q);
    }
  }

  /** A value below the modulus is its own remainder. */
  lemma ModSmall(x: nat, m: nat)
    requires x < m
    ensures x % m == x
  {
    DivModUnique(x, m, 0, x);
  }

  /** A remainder is never more than the value it is taken of. */
  lemma ModAtMost(x: nat, m: nat)
    requires m > 0
    ensures x % m <= x
  {
    var q := x / m;
    assert x == m * q + x % m;
    if q > 0 {
      MulAtLeast(m, q);
    }
  }

  /** Peeling the low byte off a remainder and a quotient. */
  lemma ModSplit(n: nat, p: nat)
    requires p > 0
    ensures n % (256 * p) == n % 256 + 256 * ((n / 256) % p)
    ensures n / (256 * p) == (n / 256) / p
  {
    var q, r := n / 256, n % 256;
    var t, s := q / p, q % p;
    assert n == 256 * q + r;
    assert q == p * t + s;
    assert n == (256 * p) * t + (256 * s + r);
    DivModUnique(n, 256 * p, t, 256 * s + r);
  }

  /** `256^k`, the reach of a `k`-byte field. */
  function Pow256(k: nat): (p: nat)
    ensures p > 0
  {
    if k == 0 then 1 else 256 * Pow256(k - 1)
  }

  /**
   * The `count` low bytes of `n`, low byte first: byte `i` is `(n >> 8i) & 0xff`,
   * which for a non-negative `n` is `(n / 256^i) % 256`.
   */
  function LeBytes(n: nat, count: nat): (r: seq<byte>)
    ensures |r| == count
  {
    if count == 0 then [] else [n % 256] + LeBytes(n / 256, count - 1)
  }

  /** The `count` low bytes of `n` decode to `n` modulo `256^count`. */
  lemma {:induction false} LeBytesValue(n: nat, count: nat)
    ensures Le(LeBytes(n, count)) == n % Pow256(count)
  {
    if count > 0 {
      var r := LeBytes(n, count);
      assert r[1..] == LeBytes(n / 256, count - 1);
      LeBytesValue(n / 256, count - 1);
      ModSplit(n, Pow256(count - 1));
    }
  }

  /** `[n & 0xff, (n >> 8) & 0xff]`: the two low bytes of `n`. */
  function U16Le(n: nat): (r: seq<byte>)
    ensures |r| == 2
  {
    LeBytes(n, 2)
  }

  /**
   * `[n & 0xff, (n >> 8) & 0xff, (n >> 16) & 0xff, (n >> 24) & 0xff]`: the low
   * 32 bits of `n`. JavaScript's `>>` first reduces `n` modulo 2^32 and may make it
   * negative, but the `& 0xff` keeps only bits that reduction leaves alone.
   */
  function U32Le(n: nat): (r: seq<byte>)
    ensures |r| == 4
  {
    LeBytes(n, 4)
  }

  /** Two bytes written by `U16Le` decode to the low 16 bits of the value. */
  lemma U16LeValue(n: nat)
    ensures Le(U16Le(n)) == n % TWO_16
  {
    LeBytesValue(n, 2);
  }

  /** Four bytes written by `U32Le` decode to the low 32 bits of the value. */
  lemma U32LeValue(n: nat)
    ensures Le(U32Le(n)) == n % TWO_32
  {
    LeBytesValue(n, 4);
  }

  /** Encoding a 32-bit value and decoding it again gives the value back. */
  lemma U32LeRoundTrip(n: nat)
    requires n < TWO_32
    ensures Le(U32Le(n)) == n
  {
    U32LeValue(n);
    ModSmall(n, TWO_32);
  }

  /** Decoding `k` bytes and encoding the value in `k` bytes again gives the bytes back. */
  lemma {:induction false} LeBytesRoundTrip(bs: seq<byte>)
    ensures Le(bs) < Pow256(|bs|)
    ensures LeBytes(Le(bs), |bs|) == bs
  {
    if bs != [] {
      var v, rest := Le(bs), Le(bs[1..]);
      LeBytesRoundTrip(bs[1..]);
      DivModUnique(v, 256, rest, bs[0]);
      assert v < 256 * Pow256(|bs| - 1) by {
        MulAtLeast(256, Pow256(|bs| - 1) - rest);
        assert 256 * Pow256(|bs| - 1) - 256 * rest == 256 * (Pow256(|bs| - 1) - rest);
      }
      assert LeBytes(v, |bs|) == [bs[0]] + bs[1..];
    }
  }

  /** Four bytes decode to a value below 2^32 that encodes back to the same bytes. */
  lemma LeU32RoundTrip(bs: seq<byte>)
    requires |bs| == 4
    ensures Le(bs) < TWO_32
    ensures U32Le(Le(bs)) == bs
  {
    LeBytesRoundTrip(bs);
  }

  /** Two bytes decode to a value below 2^16 that encodes back to the same bytes. */
  lemma LeU16RoundTrip(bs: seq<byte>)
    requires |bs| == 2
    ensures Le(bs) < TWO_16
    ensures U16Le(Le(bs)) == bs
  {
    LeBytesRoundTrip(bs);
  }

  /** Trailing zero bytes do not change a little-endian value. */
  lemma {:induction false} LeZeroExtend(bs: seq<byte>, k: nat)
    ensures Le(bs + seq(k, _ => 0)) == Le(bs)
  {
    if bs == [] {
      if k > 0 {
        assert (bs + seq(k, _ => 0))[1..] == [] + seq(k - 1, _ => 0);
        LeZeroExtend([], k - 1);
      } else {
        assert bs + seq(k, _ => 0) == [];
      }
    } else {
      assert (bs + seq(k, _ => 0))[1..] == bs[1..] + seq(k, _ => 0);
      LeZeroExtend(bs[1..], k);
    }
  }
}
