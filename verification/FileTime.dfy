/**
 Timestamps and allocation sizes as src/driver.rs and src/utils.rs compute them in a release build,
 where u64 addition wraps.
 */
module FileTime {
  import opened Basics

  const UNIX_EPOCH_IN_FILETIME := 116444736000000000

  /** Rust's integer division truncates toward zero. */
  function TruncatedDiv(a: int, b: int): int
    requires b > 0
  {
    if a >= 0 then a / b else -(-a / b)
  }

  /** The bit-preserving cast of an i64 to u64. */
  function AsU64(n: i64): u64 {
    if n >= 0 then n else n + TWO64
  }

  /** ApfsDriver::apfs_time_to_filetime. */
  function DriverFileTime(nanos: i64): u64 {
    var intervals := AsU64(TruncatedDiv(nanos, 100));
    Add64(UNIX_EPOCH_IN_FILETIME, intervals)
  }

  /** utils::apfs_time_to_filetime, the second copy of the conversion. */
  function UtilsFileTime(apfsTime: i64): u64 {
    Wrap(UNIX_EPOCH_IN_FILETIME + AsU64(TruncatedDiv(apfsTime, 100)))
  }

  /**
   The wrapped sum is the exact one for every input, also before 1970: the casts cancel, the result is
   a valid FILETIME (MS-DTYP, section 2.3.3), and both copies agree.
   */
  lemma FileTimeIsExact(nanos: i64)
    ensures DriverFileTime(nanos) == UtilsFileTime(nanos) == UNIX_EPOCH_IN_FILETIME + TruncatedDiv(nanos, 100)
  {
  }

  /** t counts whole 100 ns intervals from 1970 to the instant, cut on the side of 1970. */
  predicate Reports(t: u64, nanos: i64) {
    var rest := nanos - 100 * (t - UNIX_EPOCH_IN_FILETIME);
    if nanos >= 0 then 0 <= rest < 100 else -100 < rest <= 0
  }

  /** Both copies report every instant to within 99 ns, and there is one such report. */
  lemma FileTimeReports(nanos: i64, t: u64)
    ensures DriverFileTime(nanos) == t <==> Reports(t, nanos)
    ensures UtilsFileTime(nanos) == t <==> Reports(t, nanos)
  {
    FileTimeIsExact(nanos);
  }

  lemma FileTimeIsMonotone(a: i64, b: i64)
    requires a <= b
    ensures DriverFileTime(a) <= DriverFileTime(b)
  {
    FileTimeIsExact(a);
    FileTimeIsExact(b);
  }

  /**
   Two instants are reported alike exactly when they fall into the same 100 ns interval, counted away
   from 1970 on either side: the quotient truncates toward zero, so the two intervals that meet there,
   199 ns in all, are one.
   */
  lemma FileTimeLosesOnlySubIntervals(a: i64, b: i64)
    requires a <= b
    ensures DriverFileTime(a) == DriverFileTime(b)
       <==> || (0 <= a && a / 100 == b / 100)
            || (b <= 0 && (0 - a) / 100 == (0 - b) / 100)
            || -100 < a <= b < 100
  {
    FileTimeIsExact(a);
    FileTimeIsExact(b);
  }

  /** On u64 words, masking with !4095 is rounding down to a multiple of 4096. */
  lemma MaskRoundsDown(x: bv64)
    ensures x & !4095 == x - x % 4096
  {
  }

  /** (size + 4095) & !4095. */
  function AllocationSize(size: u64): u64 {
    var padded := Add64(size, 4095);
    padded - padded % 4096
  }

  /** Without overflow the allocation size is the least multiple of 4096 that holds the file; with overflow it is 0. */
  lemma AllocationIsLeastMultiple(size: u64, m: nat)
    ensures size + 4095 < TWO64 ==>
              AllocationSize(size) % 4096 == 0 && size <= AllocationSize(size) < size + 4096
    ensures size + 4095 < TWO64 && m % 4096 == 0 && size <= m ==> AllocationSize(size) <= m
    ensures size + 4095 >= TWO64 ==> AllocationSize(size) == 0
  {
  }
}
