/**
 Bytes and the fixed-width integers the storage layer writes into block headers.

 `BitConverter.GetBytes(long)` / `BitConverter.ToInt64` are modelled as eight bytes of
 two's complement in little-endian order, the layout `BitConverter` produces on every
 little-endian platform; the storage proofs only use that decoding inverts encoding.
 */
module Bytes {

  type byte = b: int | 0 <= b < 256

  const TWO_32: int := 0x1_0000_0000
  const TWO_31: int := 0x8000_0000
  const TWO_64: int := 0x1_0000_0000_0000_0000
  const TWO_63: int := 0x8000_0000_0000_0000

  /** The values of a C# `long`. */
  type int64 = v: int | -TWO_63 <= v < TWO_63

  /** `n` zero bytes: a freshly allocated C# `byte[]`, or bytes added by `Stream.SetLength`. */
  function Zeros(n: nat): (z: seq<byte>)
    ensures |z| == n
    ensures forall i :: 0 <= i < n ==> z[i] == 0
  {
    seq(n, _ => 0)
  }

  function Pow256(k: nat): (p: nat)
    ensures p >= 1
  {
    if k == 0 then 1 else 256 * Pow256(k - 1)
  }

  /** The `k` least significant base-256 digits of `n`, least significant first. */
  function Digits(n: nat, k: nat): (ds: seq<byte>)
    ensures |ds| == k
  {
    if k == 0 then [] else [n % 256] + Digits(n / 256, k - 1)
  }

  /** The number whose little-endian base-256 digits are `ds`. */
  function Value(ds: seq<byte>): (v: nat)
    ensures v < Pow256(|ds|)
  {
    if |ds| == 0 then 0 else ds[0] + 256 * Value(ds[1..])
  }

  lemma {:induction false} ValueOfDigits(n: nat, k: nat)
    requires n < Pow256(k)
    ensures Value(Digits(n, k)) == n
  {
    if k > 0 {
      var ds := Digits(n, k);
      assert ds[1..] == Digits(n / 256, k - 1);
      ValueOfDigits(n / 256, k - 1);
    }
  }

  lemma {:induction false} ValueOfZeros(n: nat)
    ensures Value(Zeros(n)) == 0
  {
    if n > 0 {
      assert Zeros(n)[1..] == Zeros(n - 1);
      ValueOfZeros(n - 1);
    }
  }

  /** `BitConverter.GetBytes(long)`. */
  function EncodeInt64(v: int64): (bs: seq<byte>)
    ensures |bs| == 8
  {
    Digits(if v < 0 then v + TWO_64 else v, 8)
  }

  /** `BitConverter.ToInt64` on eight bytes. */
  function DecodeInt64(bs: seq<byte>): (v: int64)
    requires |bs| == 8
    ensures 0 <= v ==> v == Value(bs)
  {
    assert Pow256(8) == TWO_64;
    var u := Value(bs);
    if u >= TWO_63 then u - TWO_64 else u
  }

  /** Decoding inverts encoding for every `long`. */
  lemma DecodeEncode(v: int64)
    ensures DecodeInt64(EncodeInt64(v)) == v
  {
    assert Pow256(8) == TWO_64;
    ValueOfDigits(if v < 0 then v + TWO_64 else v, 8);
  }

  /** Eight zero bytes decode to 0: an untouched header field reads as 0. */
  lemma DecodeZeros()
    ensures DecodeInt64(Zeros(8)) == 0
  {
    ValueOfZeros(8);
  }

  /** The C# cast `(uint)` of a `long`: its low 32 bits. */
  function ToUInt32(v: int64): (u: nat)
    ensures u < TWO_32
    ensures 0 <= v < TWO_32 ==> u == v
  {
    v % TWO_32
  }

  /** The C# cast `(int)` of a `long`: its low 32 bits read as a signed number. */
  function ToInt32(v: int64): (i: int)
    ensures -TWO_31 <= i < TWO_31
    ensures -TWO_31 <= v < TWO_31 ==> i == v
  {
    var u := v % TWO_32;
    if u >= TWO_31 then u - TWO_32 else u
  }
}
