/** Fixed-width integers and their byte encodings.

    The log stores an `i64` and a `usize` as raw native bytes. This model fixes
    the native layout of a 64-bit little-endian machine: both are 8 bytes,
    least significant byte first, and an `i64` is stored in two's complement.
 */
module Bytes {

  type byte = b: int | 0 <= b < 256

  const TwoTo63: int := 0x8000_0000_0000_0000
  const TwoTo64: int := 0x1_0000_0000_0000_0000

  /** Largest `i64`; also the largest length a Rust `String` can have. */
  const MaxInt64: int := TwoTo63 - 1

  type int64 = x: int | -TwoTo63 <= x < TwoTo63
  type uint64 = x: int | 0 <= x < TwoTo64

  /** Width in bytes of the stored timestamp and of the stored label length. */
  const Width: nat := 8

  /** `n` zero bytes, what a freshly zeroed Rust buffer holds. */
  function Zeros(n: nat): (z: seq<byte>)
    ensures |z| == n
    ensures forall i :: 0 <= i < n ==> z[i] == 0
  {
    seq(n, _ => 0)
  }

  function Pow256(n: nat): (r: nat)
    ensures r > 0
  {
    if n == 0 then 1 else 256 * Pow256(n - 1)
  }

  lemma Pow256Width()
    ensures Pow256(Width) == TwoTo64
  {
  }

  /** Little-endian value of a byte string. */
  function DecodeUnsigned(s: seq<byte>): (r: nat)
    ensures r < Pow256(|s|)
  {
    if s == [] then 0 else s[0] + 256 * DecodeUnsigned(s[1..])
  }

  /** The `width` little-endian bytes of `x`. */
  function EncodeUnsigned(x: nat, width: nat): (s: seq<byte>)
    requires x < Pow256(width)
    ensures |s| == width
  {
    if width == 0 then [] else [x % 256] + EncodeUnsigned(x / 256, width - 1)
  }

  lemma {:induction false} DecodeEncodeUnsigned(x: nat, width: nat)
    requires x < Pow256(width)
    ensures DecodeUnsigned(EncodeUnsigned(x, width)) == x
  {
    if width > 0 {
      var s := EncodeUnsigned(x, width);
      assert s[1..] == EncodeUnsigned(x / 256, width - 1);
      DecodeEncodeUnsigned(x / 256, width - 1);
    }
  }

  lemma {:induction false} EncodeDecodeUnsigned(s: seq<byte>)
    ensures EncodeUnsigned(DecodeUnsigned(s), |s|) == s
  {
    if s != [] {
      var x := DecodeUnsigned(s);
      assert x % 256 == s[0] && x / 256 == DecodeUnsigned(s[1..]);
      EncodeDecodeUnsigned(s[1..]);
    }
  }

  /** `usize::to_ne_bytes` on the modelled machine. */
  function EncodeU64(x: uint64): (s: seq<byte>)
    ensures |s| == Width
  {
    Pow256Width();
    EncodeUnsigned(x, Width)
  }

  /** `usize::from_ne_bytes` on the modelled machine. */
  function DecodeU64(s: seq<byte>): (r: uint64)
    requires |s| == Width
  {
    Pow256Width();
    DecodeUnsigned(s)
  }

  /** `i64::to_ne_bytes`: two's complement, little-endian. */
  function EncodeI64(x: int64): (s: seq<byte>)
    ensures |s| == Width
  {
    EncodeU64(if x < 0 then x + TwoTo64 else x)
  }

  /** `i64::from_ne_bytes`. */
  function DecodeI64(s: seq<byte>): (r: int64)
    requires |s| == Width
  {
    var u := DecodeU64(s);
    if u >= TwoTo63 then u - TwoTo64 else u
  }

  lemma U64RoundTrip(x: uint64)
    ensures DecodeU64(EncodeU64(x)) == x
  {
    Pow256Width();
    DecodeEncodeUnsigned(x, Width);
  }

  lemma U64BytesRoundTrip(s: seq<byte>)
    requires |s| == Width
    ensures EncodeU64(DecodeU64(s)) == s
  {
    Pow256Width();
    EncodeDecodeUnsigned(s);
  }

  /** Decoding the bytes written for a timestamp gives the timestamp back. */
  lemma I64RoundTrip(x: int64)
    ensures DecodeI64(EncodeI64(x)) == x
  {
    U64RoundTrip(if x < 0 then x + TwoTo64 else x);
  }

  /** Every 8-byte string is the encoding of the `i64` it decodes to. */
  lemma I64BytesRoundTrip(s: seq<byte>)
    requires |s| == Width
    ensures EncodeI64(DecodeI64(s)) == s
  {
    U64BytesRoundTrip(s);
  }

  /** The Rust cast `x as i64` of a `usize`: it reinterprets the same 8
      bytes as an `i64`, so a value of 2^63 or more becomes negative. */
  function UsizeAsI64(x: uint64): (r: int64)
    ensures EncodeI64(r) == EncodeU64(x)
    ensures r >= 0 <==> x <= MaxInt64
    ensures r >= 0 ==> r == x
    ensures r < 0 ==> r == x - TwoTo64
  {
    if x < TwoTo63 then x else x - TwoTo64
  }
}
