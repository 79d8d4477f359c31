/** Octets, powers of 256, big-endian octet strings and in-place overwrites of a
    fixed-size buffer: the vocabulary the BER encoder model is written in. */
module Bytes {

  /** An octet: the C `unsigned char`. */
  type uint8 = x: int | 0 <= x < 0x100

  /** True when `x` fits the C `int` of the encoder (32-bit two's complement). */
  predicate IsInt32(x: int) {
    -0x8000_0000 <= x < 0x8000_0000
  }

  function Pow256(k: nat): (r: nat)
    ensures r >= 1
  {
    if k == 0 then 1 else 256 * Pow256(k - 1)
  }

  lemma {:induction false} Pow256Monotone(i: nat, j: nat)
    ensures i <= j ==> Pow256(i) <= Pow256(j)
    decreases j
  {
    if i < j {
      Pow256Monotone(i, j - 1);
    }
  }

  /** Multiplying by a natural number keeps `<=`. */
  lemma MulMonotone(a: int, b: int, c: nat)
    requires a <= b
    ensures a * c <= b * c
  {
    assert (b - a) * c >= 0;
  }

  /** The `k` low-order octets of `n`, most significant first: the octet with
      index `i` counted from the right is `(n >> 8*i) & 0xFF`. */
  function BigEndian(n: nat, k: nat): (r: seq<uint8>)
    ensures |r| == k
  {
    if k == 0 then [] else [(n / Pow256(k - 1)) % 256] + BigEndian(n, k - 1)
  }

  /** The unsigned value of a big-endian octet string. */
  function BEValue(s: seq<uint8>): (v: nat)
    ensures v < Pow256(|s|)
  {
    if |s| == 0 then 0
    else
      var rest := BEValue(s[1..]);
      MulMonotone(s[0], 255, Pow256(|s| - 1));
      s[0] * Pow256(|s| - 1) + rest
  }

  /** Number of `temp >>= 8` steps that bring `n` down to zero: the octet count
      of `n`, minimal in that `n` fits `k` octets but not `k - 1`. */
  function OctetCount(n: nat): (k: nat)
    ensures n < Pow256(k)
    ensures k > 0 ==> Pow256(k - 1) <= n
    ensures n > 0 <==> k > 0
  {
    if n == 0 then 0
    else
      var k' := OctetCount(n / 256);
      assert n < 256 * Pow256(k') by {
        assert n / 256 + 1 <= Pow256(k');
        assert n < 256 * (n / 256 + 1);
      }
      1 + k'
  }

  /** No octet count smaller than `OctetCount(n)` holds `n`. */
  lemma OctetCountIsMinimal(n: nat, k: nat)
    requires n < Pow256(k)
    ensures OctetCount(n) <= k
  {
    var c := OctetCount(n);
    if c > 0 {
      Pow256Monotone(k, c - 1);
    }
  }

  /** A C `int` that is not negative needs at most four octets. */
  lemma OctetCountInt32(n: nat)
    requires n < 0x8000_0000
    ensures OctetCount(n) <= 4
  {
    assert Pow256(4) == 0x1_0000_0000;
    OctetCountIsMinimal(n, 4);
  }

  /** `q` and `r` are the quotient and remainder of `n` by `d` when `n == d*q + r`
      with `0 <= r < d`. */
  lemma DivModUnique(n: int, d: int, q: int, r: int)
    requires d > 0 && 0 <= r < d && n == d * q + r
    ensures n / d == q && n % d == r
  {
    var q', r' := n / d, n % d;
    assert d * q + r == d * q' + r';
    assert d * (q - q') == r' - r;
    if q > q' {
      MulMonotone(1, q - q', d);
    } else if q < q' {
      MulMonotone(1, q' - q, d);
    }
  }

  /** Splitting `n` at octet `k`: its `k + 1` low octets are octet `k` followed by
      the `k` below it. */
  lemma ModSplit(n: nat, p: nat)
    requires p > 0
    ensures n % (256 * p) == ((n / p) % 256) * p + n % p
  {
    var q, r := n / p, n % p;
    var hi, d := q / 256, q % 256;
    assert n == (256 * p) * hi + (d * p + r) by {
      assert n == p * q + r;
      assert q == 256 * hi + d;
      assert p * q == p * (256 * hi) + p * d;
      assert p * (256 * hi) == (256 * p) * hi;
    }
    MulMonotone(d, 255, p);
    DivModUnique(n, 256 * p, hi, d * p + r);
  }

  /** Reading back `k` big-endian octets of `n` gives `n` modulo `256^k`. */
  lemma {:induction false} BEValueBigEndian(n: nat, k: nat)
    ensures BEValue(BigEndian(n, k)) == n % Pow256(k)
  {
    if k > 0 {
      var s := BigEndian(n, k);
      assert s[1..] == BigEndian(n, k - 1);
      BEValueBigEndian(n, k - 1);
      ModSplit(n, Pow256(k - 1));
    }
  }

  /** Two octet strings of one width with one value are the same string. */
  lemma {:induction false} BEValueInjective(a: seq<uint8>, b: seq<uint8>)
    requires |a| == |b| && BEValue(a) == BEValue(b)
    ensures a == b
  {
    if |a| > 0 {
      var p := Pow256(|a| - 1);
      DivModUnique(BEValue(a), p, a[0], BEValue(a[1..]));
      DivModUnique(BEValue(b), p, b[0], BEValue(b[1..]));
      BEValueInjective(a[1..], b[1..]);
      assert a == [a[0]] + a[1..];
      assert b == [b[0]] + b[1..];
    }
  }

  /** `buf` after `bytes` are stored into it from offset `p` on, one octet per
      `*ptr++ = b` or by `memcpy`: the buffer keeps its size and everything
      outside `p .. p + |bytes|`. */
  function Overwrite(buf: seq<uint8>, p: nat, bytes: seq<uint8>): (r: seq<uint8>)
    requires p + |bytes| <= |buf|
    ensures |r| == |buf|
  {
    buf[..p] + bytes + buf[p + |bytes|..]
  }

  /** One more store right after an overwrite extends the overwrite. */
  lemma OverwriteExtend(buf: seq<uint8>, p: nat, w: seq<uint8>, x: uint8)
    requires p + |w| < |buf|
    ensures Overwrite(buf, p, w)[p + |w| := x] == Overwrite(buf, p, w + [x])
  {
  }

  /** Two adjacent overwrites are one overwrite of the concatenation. */
  lemma OverwriteAppend(buf: seq<uint8>, p: nat, w: seq<uint8>, x: seq<uint8>)
    requires p + |w| + |x| <= |buf|
    ensures Overwrite(Overwrite(buf, p, w), p + |w|, x) == Overwrite(buf, p, w + x)
  {
  }
}
