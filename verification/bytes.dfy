/**
  Bytes, fixed-width unsigned integers and their little- and big-endian
  encodings. Every multi-byte field of the SGX records is little-endian;
  the RSA signature produced by the signing primitive is big-endian.
*/
module Bytes {

  type byte = x: int | 0 <= x < 256
  type u16 = x: int | 0 <= x < 0x1_0000
  type u32 = x: int | 0 <= x < 0x1_0000_0000
  type u64 = x: int | 0 <= x < 0x1_0000_0000_0000_0000
  type NonZeroU32 = x: u32 | x != 0 witness 1

  const U64_LIMIT: nat := 0x1_0000_0000_0000_0000

  /** 256 to the power `w`: the number of values a `w`-byte field can hold. */
  function Pow256(w: nat): (r: nat)
    ensures r >= 1
  {
    if w == 0 then 1 else 256 * Pow256(w - 1)
  }

  /** `n` zero bytes. */
  function Zeros(n: nat): (r: seq<byte>)
    ensures |r| == n
    ensures forall i :: 0 <= i < n ==> r[i] == 0
  {
    seq(n, _ => 0)
  }

  predicate AllZero(s: seq<byte>) {
    forall i :: 0 <= i < |s| ==> s[i] == 0
  }

  /** The `w`-byte little-endian encoding of `n`, least significant byte first. */
  function LE(n: nat, w: nat): (r: seq<byte>)
    requires n < Pow256(w)
    ensures |r| == w
  {
    if w == 0 then [] else [n % 256] + LE(n / 256, w - 1)
  }

  /** The number a little-endian byte string denotes. */
  function FromLE(s: seq<byte>): nat {
    if |s| == 0 then 0 else s[0] + 256 * FromLE(s[1..])
  }

  /** The number a big-endian byte string denotes. */
  function FromBE(s: seq<byte>): nat {
    if |s| == 0 then 0 else FromBE(s[..|s| - 1]) * 256 + s[|s| - 1]
  }

  /** The `w`-byte big-endian encoding of `n`, most significant byte first. */
  function BE(n: nat, w: nat): (r: seq<byte>)
    requires n < Pow256(w)
    ensures |r| == w
  {
    if w == 0 then [] else BE(n / 256, w - 1) + [n % 256]
  }

  lemma {:induction false} FromLEBound(s: seq<byte>)
    ensures FromLE(s) < Pow256(|s|)
  {
    if |s| > 0 {
      FromLEBound(s[1..]);
    }
  }

  lemma {:induction false} FromBEBound(s: seq<byte>)
    ensures FromBE(s) < Pow256(|s|)
  {
    if |s| > 0 {
      FromBEBound(s[..|s| - 1]);
    }
  }

  /** Decoding an encoding gives the number back. */
  lemma {:induction false} FromLEOfLE(n: nat, w: nat)
    requires n < Pow256(w)
    ensures FromLE(LE(n, w)) == n
  {
    if w > 0 {
      FromLEOfLE(n / 256, w - 1);
      assert LE(n, w)[1..] == LE(n / 256, w - 1);
    }
  }

  /** Encoding a decoded string gives the string back. */
  lemma {:induction false} LEOfFromLE(s: seq<byte>)
    ensures FromLE(s) < Pow256(|s|)
    ensures LE(FromLE(s), |s|) == s
  {
    FromLEBound(s);
    if |s| > 0 {
      LEOfFromLE(s[1..]);
      assert s == [s[0]] + s[1..];
    }
  }

  lemma {:induction false} FromBEOfBE(n: nat, w: nat)
    requires n < Pow256(w)
    ensures FromBE(BE(n, w)) == n
  {
    if w > 0 {
      FromBEOfBE(n / 256, w - 1);
      assert BE(n, w)[..w - 1] == BE(n / 256, w - 1);
    }
  }

  /** Two same-width encodings are equal only for equal numbers. */
  lemma LEInjective(a: nat, b: nat, w: nat)
    requires a < Pow256(w) && b < Pow256(w)
    requires LE(a, w) == LE(b, w)
    ensures a == b
  {
    FromLEOfLE(a, w);
    FromLEOfLE(b, w);
  }

  lemma {:induction false} LEZero(w: nat)
    ensures LE(0, w) == Zeros(w)
  {
    if w > 0 {
      LEZero(w - 1);
    }
  }

  lemma Pow256Values()
    ensures Pow256(1) == 0x100
    ensures Pow256(2) == 0x1_0000
    ensures Pow256(4) == 0x1_0000_0000
    ensures Pow256(8) == 0x1_0000_0000_0000_0000
  {
    assert Pow256(2) == 256 * Pow256(1);
    assert Pow256(4) == 256 * 256 * Pow256(2);
    assert Pow256(8) == 256 * 256 * 256 * 256 * Pow256(4);
  }

  /** Little-endian field encoders and decoders of the usual widths. */
  function LE16(n: u16): (r: seq<byte>)
    ensures |r| == 2
  {
    Pow256Values();
    LE(n, 2)
  }

  function LE32(n: u32): (r: seq<byte>)
    ensures |r| == 4
  {
    Pow256Values();
    LE(n, 4)
  }

  function LE64(n: u64): (r: seq<byte>)
    ensures |r| == 8
  {
    Pow256Values();
    LE(n, 8)
  }

  function U16(s: seq<byte>): (r: u16)
    requires |s| == 2
  {
    FromLEBound(s);
    Pow256Values();
    FromLE(s)
  }

  function U32(s: seq<byte>): (r: u32)
    requires |s| == 4
  {
    FromLEBound(s);
    Pow256Values();
    FromLE(s)
  }

  function U64(s: seq<byte>): (r: u64)
    requires |s| == 8
  {
    FromLEBound(s);
    Pow256Values();
    FromLE(s)
  }

  lemma U16RoundTrip(n: u16)
    ensures U16(LE16(n)) == n
  {
    Pow256Values();
    FromLEOfLE(n, 2);
  }

  lemma U32RoundTrip(n: u32)
    ensures U32(LE32(n)) == n
  {
    Pow256Values();
    FromLEOfLE(n, 4);
  }

  lemma U64RoundTrip(n: u64)
    ensures U64(LE64(n)) == n
  {
    Pow256Values();
    FromLEOfLE(n, 8);
  }

  lemma LE16RoundTrip(s: seq<byte>)
    requires |s| == 2
    ensures LE16(U16(s)) == s
  {
    LEOfFromLE(s);
  }

  lemma LE32RoundTrip(s: seq<byte>)
    requires |s| == 4
    ensures LE32(U32(s)) == s
  {
    LEOfFromLE(s);
  }

  lemma LE64RoundTrip(s: seq<byte>)
    requires |s| == 8
    ensures LE64(U64(s)) == s
  {
    LEOfFromLE(s);
  }

  /** Reading big-endian, each further byte shifts what was read by one byte. */
  lemma FromBEPrefix(s: seq<byte>, k: nat)
    requires 0 < k <= |s|
    ensures FromBE(s[..k]) == FromBE(s[..k - 1]) * 256 + s[k - 1]
  {
    assert s[..k][..k - 1] == s[..k - 1];
  }
}
