/** Values shared by the whole model: option and result types and the machine integers. */
module Basics {
  datatype Option<+T> = None | Some(value: T)

  /** An operation that either yields a value or fails; the error text is not modelled. */
  datatype Result<+T> = Ok(value: T) | Err

  const TWO32 := 0x1_0000_0000
  const TWO63 := 0x8000_0000_0000_0000
  const TWO64 := 0x1_0000_0000_0000_0000

  newtype byte = b: int | 0 <= b < 256

  type u32 = n: int | 0 <= n < TWO32
  type u64 = n: int | 0 <= n < TWO64
  type i64 = n: int | -TWO63 <= n < TWO63

  /** Arithmetic on u64 in a release build keeps the low 64 bits. */
  function Wrap(n: int): u64 {
    n % TWO64
  }

  /** Wrap of a sum of two words. */
  function Add64(a: u64, b: u64): u64 {
    if a + b < TWO64 then a + b else a + b - TWO64
  }

  /** The bit-preserving cast of a u64 to i64. */
  function AsI64(n: u64): i64 {
    if n < TWO63 then n else n - TWO64
  }

  function Min(a: int, b: int): int {
    if a <= b then a else b
  }

  function SaturatingSub(a: int, b: int): int {
    if a <= b then 0 else a - b
  }

  /** `data` is exactly what `bytes` holds from position `pos` on. */
  predicate Carries(bytes: seq<byte>, pos: nat, data: seq<byte>) {
    |data| > 0 ==> pos + |data| <= |bytes| && data == bytes[pos..pos + |data|]
  }

  /** Cutting out a part of a part. */
  lemma CutOfCut<T>(s: seq<T>, from: nat, to: nat, lo: nat, hi: nat)
    requires from <= to <= |s| && lo <= hi <= to - from
    ensures s[from..to][lo..hi] == s[from + lo..from + hi]
  {
    assert forall k | lo <= k < hi :: s[from..to][lo..hi][k - lo] == s[from..to][k] == s[from + k];
  }

  lemma CarriesSlice(bytes: seq<byte>, pos: nat, data: seq<byte>, lo: nat, hi: nat)
    requires lo <= hi <= |data| && Carries(bytes, pos, data)
    ensures Carries(bytes, pos + lo, data[lo..hi])
  {
    if lo < hi {
      CutOfCut(bytes, pos, pos + |data|, lo, hi);
    }
  }

  lemma CarriesConcat(bytes: seq<byte>, pos: nat, a: seq<byte>, b: seq<byte>)
    requires Carries(bytes, pos, a) && Carries(bytes, pos + |a|, b)
    ensures Carries(bytes, pos, a + b)
  {
  }
}
