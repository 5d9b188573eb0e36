/** Bytes and the little-endian unsigned integers that the programs write to sockets and files. */
module Bytes {

  newtype Byte = x: int | 0 <= x < 256

  /** Unsigned conversion to a field of `width` bytes: what does not fit is cut off. */
  function Pow256(width: nat): (p: nat)
    ensures p > 0
  {
    if width == 0 then 1 else 256 * Pow256(width - 1)
  }

  function EncodeLE(n: nat, width: nat): (s: seq<Byte>)
    ensures |s| == width
    decreases width, n
  {
    if width == 0 then [] else [(n % 256) as Byte] + EncodeLE(n / 256, width - 1)
  }

  function DecodeLE(s: seq<Byte>): (n: nat) {
    if s == [] then 0 else s[0] as nat + 256 * DecodeLE(s[1..])
  }

  lemma DivBound(n: nat, p: nat)
    requires p > 0
    ensures n / 256 < p <==> n < 256 * p
  {
  }

  /** A field reads back the number that was stored exactly when the number fits its width. */
  lemma {:induction false} FieldRoundTrip(n: nat, width: nat)
    ensures DecodeLE(EncodeLE(n, width)) < Pow256(width)
    ensures DecodeLE(EncodeLE(n, width)) == n <==> n < Pow256(width)
  {
    if width > 0 {
      FieldRoundTrip(n / 256, width - 1);
      DivBound(n, Pow256(width - 1));
      var s := EncodeLE(n, width);
      assert s[1..] == EncodeLE(n / 256, width - 1);
    }
  }

  /** Any bytes are the field of the number they read as. */
  lemma {:induction false} BytesRoundTrip(s: seq<Byte>)
    ensures DecodeLE(s) < Pow256(|s|) && EncodeLE(DecodeLE(s), |s|) == s
  {
    if s != [] {
      BytesRoundTrip(s[1..]);
      var rest := DecodeLE(s[1..]);
      assert DecodeLE(s) % 256 == s[0] as nat && DecodeLE(s) / 256 == rest;
      assert s == [s[0]] + s[1..];
    }
  }

  lemma DivUnique(n: nat, d: nat, t: nat, r: nat)
    requires n == d * t + r && r < d
    ensures n / d == t
  {
    if n / d < t {
      Larger(d, n / d, t);
    } else if t < n / d {
      Larger(d, t, n / d);
    }
  }

  lemma Larger(d: nat, t: nat, q: nat)
    requires t < q
    ensures d * t + d <= d * q
  {
    assert d * q == d * t + d * (q - t);
    assert d * (q - t) == d + d * (q - t - 1);
  }

  lemma DivTwice(n: nat, p: nat)
    requires p > 0
    ensures n / 256 / p == n / (256 * p)
  {
    var q := n / 256;
    assert q == p * (q / p) + q % p;
    assert n == (256 * p) * (q / p) + (256 * (q % p) + n % 256);
    DivUnique(n, 256 * p, q / p, 256 * (q % p) + n % 256);
  }

  /** The bytes of a field are the digits of its number, the lowest first. */
  lemma {:induction false} Digit(n: nat, width: nat, i: nat)
    requires i < width
    ensures EncodeLE(n, width)[i] as nat == n / Pow256(i) % 256
  {
    if i > 0 {
      Digit(n / 256, width - 1, i - 1);
      DivTwice(n, Pow256(i - 1));
    }
  }
}
