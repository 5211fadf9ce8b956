// Byte-level vocabulary shared by the record engine: bytes, little-endian
// integers of a given width, and the engine-wide size limits.

module Bytes {

  type byte = x: int | 0 <= x < 256

  /** A UTF-16 code unit (U16unit). */
  type u16 = x: int | 0 <= x < 0x1_0000

  /** Largest record (and field) in bytes on 64-bit and Linux builds. */
  const MaxFieldLength: int := 0x7fff_ffff
  /** Largest var-data offset that fits below the inline-length bits of a slot. */
  const MaxFieldLength32: int := 0x0fff_ffff
  /** A FixedDecimal holds at most 256 digits plus sign and point. */
  const MaxFixedDecimalPrecision: int := 258
  /** Wide strings are limited to half of this, since it counts bytes. */
  const MaxFixedLengthStringSize: int := 16384

  function Pow256(n: nat): (r: nat)
    ensures r >= 1
  {
    if n == 0 then 1 else 256 * Pow256(n - 1)
  }

  /** The n low-order bytes of v, least significant first. */
  function ToLE(v: nat, n: nat): (r: seq<byte>)
    ensures |r| == n
  {
    if n == 0 then [] else [v % 256] + ToLE(v / 256, n - 1)
  }

  /** The unsigned number whose little-endian bytes are s. */
  function FromLE(s: seq<byte>): (r: nat)
    ensures r < Pow256(|s|)
  {
    if |s| == 0 then 0 else s[0] + 256 * FromLE(s[1..])
  }

  lemma {:induction false} FromToLE(v: nat, n: nat)
    requires v < Pow256(n)
    ensures FromLE(ToLE(v, n)) == v
  {
    if n > 0 {
      FromToLE(v / 256, n - 1);
      assert ToLE(v, n)[1..] == ToLE(v / 256, n - 1);
    }
  }

  lemma {:induction false} ToFromLE(s: seq<byte>)
    ensures ToLE(FromLE(s), |s|) == s
  {
    if |s| > 0 {
      var v := FromLE(s);
      LowByte(s[0], FromLE(s[1..]));
      ToFromLE(s[1..]);
      assert ToLE(v, |s|) == [s[0]] + s[1..];
    }
  }

  /** Splitting a + 256 * b at its low byte gives back a and b. */
  lemma LowByte(a: byte, b: nat)
    ensures (a + 256 * b) % 256 == a && (a + 256 * b) / 256 == b
  {
  }

  /** Half the range of an n-byte integer: the bound of its signed values. */
  function Half(n: nat): (h: int)
    requires n > 0
    ensures h > 0 && 2 * h == Pow256(n)
  {
    128 * Pow256(n - 1)
  }

  /** Two's-complement image of a signed value in n bytes. */
  function ToUnsigned(v: int, n: nat): (r: nat)
    requires n > 0 && -Half(n) <= v < Half(n)
    ensures r < Pow256(n)
  {
    if v >= 0 then v else v + Pow256(n)
  }

  /** The signed value whose two's-complement image in n > 0 bytes is u. */
  function ToSigned(u: nat, n: nat): (r: int)
    requires n > 0 && u < Pow256(n)
    ensures -Half(n) <= r < Half(n)
  {
    if u < Half(n) then u else u - Pow256(n)
  }

  lemma SignedRoundTrip(v: int, n: nat)
    requires n > 0 && -Half(n) <= v < Half(n)
    ensures ToSigned(ToUnsigned(v, n), n) == v
  {
  }

  /** The little-endian unsigned 32-bit number stored at s[i..i+4]. */
  function ReadU32(s: seq<byte>, i: int): (r: nat)
    requires 0 <= i && i + 4 <= |s|
    ensures r < 0x1_0000_0000
  {
    assert Pow256(4) == 0x1_0000_0000;
    FromLE(s[i..i + 4])
  }

  /** s with the 32-bit little-endian image of v written over s[i..i+4]. */
  function WriteU32(s: seq<byte>, i: int, v: nat): (r: seq<byte>)
    requires 0 <= i && i + 4 <= |s| && v < 0x1_0000_0000
    ensures |r| == |s|
    ensures r[..i] == s[..i] && r[i + 4..] == s[i + 4..]
    ensures ReadU32(r, i) == v
  {
    assert Pow256(4) == 0x1_0000_0000;
    var r := s[..i] + ToLE(v, 4) + s[i + 4..];
    assert r[i..i + 4] == ToLE(v, 4);
    FromToLE(v, 4);
    r
  }

  /** The word written, nothing else changes. */
  lemma WriteU32Outside(s: seq<byte>, i: int, v: nat)
    requires 0 <= i && i + 4 <= |s| && v < 0x1_0000_0000
    ensures forall k :: 0 <= k < |s| && !(i <= k < i + 4) ==> WriteU32(s, i, v)[k] == s[k]
  {
    var r := WriteU32(s, i, v);
    forall k | 0 <= k < |s| && !(i <= k < i + 4) ensures r[k] == s[k] {
      if k < i {
        assert r[k] == r[..i][k];
      } else {
        assert r[k] == r[i + 4..][k - i - 4];
      }
    }
  }

  /** s with t written over s[i..i+|t|]. */
  function Splice(s: seq<byte>, i: int, t: seq<byte>): (r: seq<byte>)
    requires 0 <= i && i + |t| <= |s|
    ensures |r| == |s| && r[i..i + |t|] == t
    ensures r[..i] == s[..i] && r[i + |t|..] == s[i + |t|..]
    ensures forall k :: 0 <= k < |s| && !(i <= k < i + |t|) ==> r[k] == s[k]
  {
    s[..i] + t + s[i + |t|..]
  }
}
