/** Bytes, and the little-endian encoding of numbers in them. */
module Octets {
  type octet = b: nat | b < 256

  /** `n` bytes of `u`, least significant first. */
  function Encoded(n: nat, u: nat): (s: seq<octet>)
    ensures |s| == n
  {
    if n == 0 then [] else [u % 256] + Encoded(n - 1, u / 256)
  }

  function Decoded(s: seq<octet>): nat {
    if s == [] then 0 else s[0] + 256 * Decoded(s[1..])
  }

  function Power256(n: nat): (p: nat)
    ensures p > 0
  {
    if n == 0 then 1 else 256 * Power256(n - 1)
  }

  lemma {:induction false} EncodedDecodes(n: nat, u: nat)
    requires u < Power256(n)
    ensures Decoded(Encoded(n, u)) == u
  {
    if n > 0 {
      assert u / 256 < Power256(n - 1);
      EncodedDecodes(n - 1, u / 256);
      assert Encoded(n, u)[1..] == Encoded(n - 1, u / 256);
    }
  }

  // ----- byte by byte -----

  lemma Multiple(d: int, k: int)
    requires -d < d * k < d
    ensures k == 0
  {
    assert k >= 1 ==> d * (k - 1) >= 0;
    assert k <= -1 ==> d * (k + 1) <= 0;
  }

  lemma Division(x: int, d: nat, q: int, r: nat)
    requires x == d * q + r && r < d
    ensures x / d == q && x % d == r
  {
    assert x == d * (x / d) + x % d;
    assert d * (q - x / d) == d * q - d * (x / d);
    Multiple(d, q - x / d);
  }

  /** Dividing by 256 and then by `p`, and what is left of the number modulo both. */
  lemma DivideTwice(x: int, p: nat)
    requires p > 0
    ensures x / (256 * p) == (x / 256) / p
    ensures x % (256 * p) == 256 * ((x / 256) % p) + x % 256
  {
    var q, s, t := x / 256, (x / 256) / p, (x / 256) % p;
    assert q == p * s + t;
    assert x == 256 * q + x % 256;
    assert (256 * p) * s == 256 * (p * s);
    Division(x, 256 * p, s, 256 * t + x % 256);
  }

  /** The bytes are the digits of the number to the base 256, the lowest first. */
  lemma {:induction false} EncodedByte(n: nat, u: nat, i: nat)
    requires i < n
    ensures Encoded(n, u)[i] == (u / Power256(i)) % 256
  {
    if i > 0 {
      EncodedByte(n - 1, u / 256, i - 1);
      DivideTwice(u, Power256(i - 1));
    }
  }

  /** Cutting a number, which may be negative, to `k` bytes does not change these bytes. */
  lemma {:induction false} CutByte(v: int, k: nat, i: nat)
    requires i < k
    ensures ((v % Power256(k)) / Power256(i)) % 256 == (v / Power256(i)) % 256
    decreases i
  {
    var u, p := v % Power256(k), Power256(k - 1);
    DivideTwice(v, p);
    assert u == 256 * ((v / 256) % p) + v % 256;
    assert u / 256 == (v / 256) % p && u % 256 == v % 256;
    if i > 0 {
      CutByte(v / 256, k - 1, i - 1);
      DivideTwice(u, Power256(i - 1));
      DivideTwice(v, Power256(i - 1));
    }
  }
}
