/**
 A raw disk behind a Win32 handle: its bytes, one file pointer, and the two calls the driver makes.
 Both calls may fail, and ReadFile may return fewer bytes than asked; callers are verified for every
 such behaviour.
 */
module Device {
  import opened Basics

  const SECTOR := 512

  /** File pointers are non-negative signed 64-bit numbers, so no disk is longer than that. */
  type FilePosition = n: int | 0 <= n < TWO63
  type Image = s: seq<byte> | |s| < TWO63

  /** What a call was asked and did; the first `lead` bytes of a transfer are asked for alignment only. */
  datatype Event =
    | Sought(target: int, ok: bool)
    | Transfer(pos: nat, lead: nat, len: nat, got: Option<nat>)

  /** A target that is no file pointer is the caller's fault. */
  predicate SeekServed(target: int, ok: bool) {
    0 <= target < TWO63 ==> ok
  }

  /** The call was not refused and did not fail. */
  predicate Succeeded(e: Event) {
    match e
    case Sought(_, ok) => ok
    case Transfer(_, _, _, got) => got.Some?
  }

  ghost predicate NoFailure(log: seq<Event>) {
    forall e | e in log :: Succeeded(e)
  }

  /** The device answers, and each read reaches past its leading bytes or brings everything up to the end. */
  ghost predicate Healthy(size: nat, log: seq<Event>) {
    forall e | e in log ::
      match e
      case Sought(target, ok) => SeekServed(target, ok)
      case Transfer(pos, lead, _, got) => got.Some? && (got.value > lead || pos + got.value >= size)
  }

  /** The device answers, and each read brings all there is. */
  ghost predicate FullService(size: nat, log: seq<Event>) {
    forall e | e in log ::
      match e
      case Sought(target, ok) => SeekServed(target, ok)
      case Transfer(pos, _, len, got) => got == Some(Min(len, SaturatingSub(size, pos)))
  }

  class Handle {
    const bytes: Image
    var pos: FilePosition
    ghost var log: seq<Event>   // every call so far

    /** CreateFileA leaves the file pointer at absolute position 0. */
    constructor (bytes: Image)
      ensures this.bytes == bytes && pos == 0 && log == []
    {
      this.bytes := bytes;
      pos := 0;
      log := [];
    }

    /** SetFilePointerEx, with the target already resolved; a target that is no file pointer is refused. */
    method SetFilePointer(target: int) returns (ok: bool)
      modifies this
      ensures ok ==> 0 <= target < TWO63 && pos == target
      ensures !ok ==> pos == old(pos)
      ensures log == old(log) + [Sought(target, ok)]
    {
      ok := *;
      ok := ok && 0 <= target < TWO63;
      if ok {
        pos := target;
      }
      log := log + [Sought(target, ok)];
    }

    /** Raw disks accept only sector-aligned positions and lengths; the driver must respect that. */
    method ReadFile(tmp: array<byte>, ghost lead: nat) returns (got: Option<nat>)
      requires pos % SECTOR == 0 && tmp.Length % SECTOR == 0
      modifies this, tmp
      ensures got.Some? ==> got.value <= tmp.Length && Carries(bytes, old(pos), tmp[..got.value])
      ensures got.Some? ==> pos == old(pos) + got.value
      ensures log == old(log) + [Transfer(old(pos), lead, tmp.Length, got)]
    {
      var ok: bool := *;
      ghost var at := pos;
      if ok {
        var n: nat :| n <= tmp.Length && (n == 0 || pos + n <= |bytes|);
        forall k | 0 <= k < n {
          tmp[k] := bytes[pos + k];
        }
        pos := pos + n;
        got := Some(n);
      } else {
        pos := *;
        got := None;
      }
      log := log + [Transfer(at, lead, tmp.Length, got)];
    }
  }
}
