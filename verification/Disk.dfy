/** src/disk.rs: DiskReader, a partition-relative reader over an absolute handle. */
module Disk {
  import opened Basics
  import opened Device

  // ---- The sector window of a request -------------------------------------------------------

  function Lead(abs: nat): nat {
    abs % SECTOR
  }

  function WindowStart(abs: nat): nat {
    abs - Lead(abs)
  }

  function WindowLength(abs: nat, len: nat): nat {
    (Lead(abs) + len + SECTOR - 1) / SECTOR * SECTOR
  }

  /** Bytes handed to the caller when the device delivered `got` bytes of the window. */
  function Copied(abs: nat, len: nat, got: nat): nat {
    Min(SaturatingSub(got, Lead(abs)), len)
  }

  /** The window is the smallest sector-aligned range around the request and wastes at most 1022 bytes. */
  lemma WindowIsSmallestCover(abs: nat, len: nat, lo: nat, hi: nat)
    requires len > 0
    ensures WindowStart(abs) % SECTOR == 0 && WindowLength(abs, len) % SECTOR == 0
    ensures WindowStart(abs) <= abs && abs + len <= WindowStart(abs) + WindowLength(abs, len)
    ensures WindowLength(abs, len) - len <= 1022
    ensures lo % SECTOR == 0 && hi % SECTOR == 0 && lo <= abs && abs + len <= hi ==>
              lo <= WindowStart(abs) && WindowStart(abs) + WindowLength(abs, len) <= hi
  {
  }

  /** A device that fills the window, as far as it reaches, satisfies the request as far as it reaches. */
  lemma FullReadDelivers(abs: nat, len: nat, size: nat)
    requires len > 0
    ensures Copied(abs, len, Min(WindowLength(abs, len), SaturatingSub(size, WindowStart(abs))))
         == Min(len, SaturatingSub(size, abs))
  {
  }

  function WindowTransfer(abs: nat, len: nat, got: Option<nat>): Event {
    Transfer(WindowStart(abs), Lead(abs), WindowLength(abs, len), got)
  }

  /** Service of one window: a healthy one brings data, a full one brings all there is. */
  lemma WindowService(size: nat, abs: nat, len: nat, got: nat)
    requires len > 0
    ensures var did := [Sought(WindowStart(abs), true), WindowTransfer(abs, len, Some(got))];
            && (Healthy(size, did) && abs < size ==> Copied(abs, len, got) > 0)
            && (FullService(size, did) ==> Copied(abs, len, got) == Min(len, SaturatingSub(size, abs)))
  {
    var did := [Sought(WindowStart(abs), true), WindowTransfer(abs, len, Some(got))];
    assert did[1] in did;
    FullReadDelivers(abs, len, size);
  }

  /** A failed call is never part of a healthy or full service. */
  lemma FailureIsUnhealthy(size: nat, did: seq<Event>, i: nat)
    requires i < |did|
    requires match did[i] case Sought(target, ok) => !SeekServed(target, ok) case Transfer(_, _, _, got) => got == None
    ensures !Healthy(size, did) && !FullService(size, did)
  {
    assert did[i] in did;
  }

  lemma ServiceParts(size: nat, a: seq<Event>, b: seq<Event>)
    ensures Healthy(size, a + b) <==> Healthy(size, a) && Healthy(size, b)
    ensures FullService(size, a + b) <==> FullService(size, a) && FullService(size, b)
    ensures NoFailure(a + b) <==> NoFailure(a) && NoFailure(b)
  {
    assert forall e :: e in a + b <==> e in a || e in b;
  }

  datatype SeekFrom = Start(n: u64) | Current(d: i64) | End(e: i64)

  /** Where a seek leads: `Start` is relative to the partition, `Current` and `End` to the device. */
  function SeekTarget(size: nat, offset: u64, pos: FilePosition, s: SeekFrom): int {
    match s
    case Start(n) => AsI64(Add64(offset, n))
    case Current(d) => pos + d
    case End(e) => size + e
  }

  /** A stream operation and what it hands back when it succeeds. */
  datatype Op = SeekTo(s: SeekFrom) | ReadUpTo(len: nat)
  datatype Answer = Position(p: u64) | Data(d: seq<byte>)

  /** Where the file pointer goes. */
  function NextPosition(size: nat, offset: u64, pos: FilePosition, op: Op, ans: Answer): int {
    match op
    case SeekTo(s) => SeekTarget(size, offset, pos, s)
    case ReadUpTo(_) => if ans.Data? then pos + |ans.d| else pos
  }

  /**
   A successful operation on the absolute handle: a seek reports its target relative to the partition,
   saturating at 0; a read returns at most what was asked, exactly the bytes under the file pointer.
   */
  predicate DeviceStep(bytes: Image, offset: u64, pos: FilePosition, op: Op, ans: Answer) {
    var pos' := NextPosition(|bytes|, offset, pos, op, ans);
    && 0 <= pos' < TWO63
    && match op
       case SeekTo(s) => ans == Position(SaturatingSub(pos', offset))
       case ReadUpTo(len) => ans.Data? && |ans.d| <= len && Carries(bytes, pos, ans.d)
  }

  /** copy_from_slice of tmp[from..from + n] to buf[lo..lo + n]. */
  method Copy(tmp: array<byte>, from: nat, buf: array<byte>, lo: nat, n: nat)
    requires tmp != buf && from + n <= tmp.Length && lo + n <= buf.Length
    modifies buf
    ensures buf[lo..lo + n] == tmp[from..from + n]
    ensures buf[..lo] == old(buf[..lo]) && buf[lo + n..] == old(buf[lo + n..])
  {
    forall k | 0 <= k < n {
      buf[lo + k] := tmp[from + k];
    }
  }

  class DiskReader {
    const handle: Handle
    const offset: u64

    /** open_with_offset, once the handle is open. */
    constructor (bytes: Image, offset: u64)
      ensures fresh(handle) && handle.bytes == bytes && handle.pos == 0 && this.offset == offset
    {
      handle := new Handle(bytes);
      this.offset := offset;
    }

    /** A second handle on the same device with partition offset 0. */
    method ReopenRaw() returns (r: DiskReader)
      ensures fresh(r) && fresh(r.handle) && r.handle.bytes == handle.bytes
      ensures r.offset == 0 && r.handle.pos == 0
    {
      r := new DiskReader(handle.bytes, 0);
    }

    /**
     What both read paths do: move to the sector in front of `abs`, read the window into a temporary
     buffer, and copy the requested part to buf[lo..hi].
     */
    method ReadWindow(abs: u64, buf: array<byte>, lo: nat, hi: nat) returns (r: Result<nat>, ghost did: seq<Event>)
      requires lo < hi <= buf.Length
      modifies handle, buf
      ensures handle.log == old(handle.log) + did
      ensures r.Ok? ==> r.value <= hi - lo && Carries(handle.bytes, abs, buf[lo..lo + r.value])
      ensures r.Ok? ==> buf[..lo] == old(buf[..lo]) && buf[lo + r.value..] == old(buf[lo + r.value..])
      ensures r.Err? ==> buf[..] == old(buf[..])
      ensures r.Ok? && Healthy(|handle.bytes|, did) && abs < |handle.bytes| ==> r.value > 0
      ensures r.Ok? && FullService(|handle.bytes|, did) ==>
                r.value == Min(hi - lo, SaturatingSub(|handle.bytes|, abs))
      ensures r.Err? ==> abs >= TWO63 || (!Healthy(|handle.bytes|, did) && !FullService(|handle.bytes|, did))
      ensures abs >= TWO63 ==> r.Err?
      ensures |did| <= 2 && (r.Ok? ==> |did| == 2)
      ensures r.Ok? <==> NoFailure(did)
    {
      var len := hi - lo;
      var sectorOffset, alignedOffset, alignedLen := Lead(abs), WindowStart(abs), WindowLength(abs, len);
      WindowIsSmallestCover(abs, len, 0, 0);
      var tmp := new byte[alignedLen](_ => 0);
      var ok := handle.SetFilePointer(AsI64(alignedOffset));
      did := [Sought(AsI64(alignedOffset), ok)];
      if !ok {
        assert did[0] in did;
        if abs < TWO63 {
          FailureIsUnhealthy(|handle.bytes|, did, 0);
        }
        return Err, did;
      }
      var got := handle.ReadFile(tmp, sectorOffset);
      did := [Sought(alignedOffset, true), WindowTransfer(abs, len, got)];
      assert handle.log == old(handle.log) + did;
      if got == None {
        assert did[1] in did;
        FailureIsUnhealthy(|handle.bytes|, did, 1);
        return Err, did;
      }
      WindowService(|handle.bytes|, abs, len, got.value);
      var toCopy := Copied(abs, len, got.value);
      if toCopy > 0 {
        CarriesSlice(handle.bytes, alignedOffset, tmp[..got.value], sectorOffset, sectorOffset + toCopy);
        assert tmp[..got.value][sectorOffset..sectorOffset + toCopy] == tmp[sectorOffset..sectorOffset + toCopy];
        Copy(tmp, sectorOffset, buf, lo, toCopy);
      }
      r := Ok(toCopy);
    }

    /** Positioned read into buf[lo..hi]; it moves the file pointer. */
    method ReadAtAbsolute(abs: u64, buf: array<byte>, lo: nat, hi: nat) returns (r: Result<nat>, ghost did: seq<Event>)
      requires lo <= hi <= buf.Length
      modifies handle, buf
      ensures handle.log == old(handle.log) + did
      ensures r.Ok? ==> r.value <= hi - lo && Carries(handle.bytes, abs, buf[lo..lo + r.value])
      ensures r.Ok? ==> buf[..lo] == old(buf[..lo]) && buf[lo + r.value..] == old(buf[lo + r.value..])
      ensures r.Err? ==> buf[..] == old(buf[..])
      ensures r.Ok? <==> NoFailure(did)
      ensures lo == hi ==> r == Ok(0)
      ensures lo < hi && abs < |handle.bytes| && Healthy(|handle.bytes|, did) ==> r.Ok? && r.value > 0
      ensures abs < TWO63 && Healthy(|handle.bytes|, did) ==> r.Ok?
      ensures lo < hi && abs >= TWO63 ==> r.Err?
      ensures abs < TWO63 && FullService(|handle.bytes|, did) ==>
                r == Ok(Min(hi - lo, SaturatingSub(|handle.bytes|, abs)))
    {
      if lo == hi {
        return Ok(0), [];
      }
      r, did := ReadWindow(abs, buf, lo, hi);
    }

    /** Positioned read at a partition-relative offset. */
    method ReadAt(p: u64, buf: array<byte>, lo: nat, hi: nat) returns (r: Result<nat>, ghost did: seq<Event>)
      requires lo <= hi <= buf.Length
      modifies handle, buf
      ensures handle.log == old(handle.log) + did
      ensures r.Ok? ==> r.value <= hi - lo && Carries(handle.bytes, Add64(offset, p), buf[lo..lo + r.value])
      ensures r.Ok? ==> buf[..lo] == old(buf[..lo]) && buf[lo + r.value..] == old(buf[lo + r.value..])
      ensures r.Err? ==> buf[..] == old(buf[..])
      ensures r.Ok? <==> NoFailure(did)
      ensures lo == hi ==> r == Ok(0)
      ensures lo < hi && Add64(offset, p) < |handle.bytes| && Healthy(|handle.bytes|, did) ==> r.Ok? && r.value > 0
      ensures Add64(offset, p) < TWO63 && Healthy(|handle.bytes|, did) ==> r.Ok?
      ensures lo < hi && Add64(offset, p) >= TWO63 ==> r.Err?
      ensures offset + p < TWO63 && FullService(|handle.bytes|, did) ==>
                r == Ok(Min(hi - lo, SaturatingSub(|handle.bytes|, offset + p)))
    {
      r, did := ReadAtAbsolute(Add64(offset, p), buf, lo, hi);
    }

    /**
     Stream read at the file pointer. On success the pointer moves by exactly the bytes returned; on
     failure it is unspecified. The data is copied before the pointer is set, so when only that last call
     is refused the buffer holds it although the read fails; any other failure leaves the buffer alone.
     */
    method Read(buf: array<byte>, lo: nat, hi: nat) returns (r: Result<nat>, ghost did: seq<Event>)
      requires lo <= hi <= buf.Length
      modifies handle, buf
      ensures handle.log == old(handle.log) + did
      ensures r.Ok? ==> r.value <= hi - lo && buf[lo + r.value..] == old(buf[lo + r.value..])
      ensures r.Ok? ==> handle.pos == old(handle.pos) + r.value
      ensures r.Ok? ==>
                DeviceStep(handle.bytes, offset, old(handle.pos), ReadUpTo(hi - lo), Data(buf[lo..lo + r.value]))
      ensures buf[..lo] == old(buf[..lo])
      ensures r.Err? && |did| < 4 ==> buf[..] == old(buf[..])
      ensures r.Err? && |did| >= 4 ==> |did| == 4 && did[3].Sought? && !did[3].ok
      ensures r.Err? && |did| >= 4 ==>
                var n := did[3].target - old(handle.pos);
                && 0 <= n <= hi - lo && Carries(handle.bytes, old(handle.pos), buf[lo..lo + n])
                && buf[lo + n..] == old(buf[lo + n..])
      ensures r.Ok? <==> NoFailure(did)
      ensures lo == hi ==> r == Ok(0)
      ensures lo < hi && old(handle.pos) < |handle.bytes| && Healthy(|handle.bytes|, did) ==> r.Ok? && r.value > 0
      ensures FullService(|handle.bytes|, did) ==>
                r == Ok(Min(hi - lo, SaturatingSub(|handle.bytes|, old(handle.pos))))
    {
      if lo == hi {
        return Ok(0), [];
      }
      ghost var size := |handle.bytes|;
      var ok := handle.SetFilePointer(handle.pos);
      did := [Sought(handle.pos, ok)];
      if !ok {
        assert did[0] in did;
        FailureIsUnhealthy(size, did, 0);
        return Err, did;
      }
      var pos := handle.pos;
      ghost var window;
      r, window := ReadWindow(pos, buf, lo, hi);
      ServiceParts(size, did, window);
      did := did + window;
      if r.Err? {
        return;
      }
      ok := handle.SetFilePointer(pos + r.value);
      ServiceParts(size, did, [Sought(pos + r.value, ok)]);
      did := did + [Sought(pos + r.value, ok)];
      if !ok {
        assert did[|did| - 1] in did;
        FailureIsUnhealthy(size, did, |did| - 1);
        return Err, did;
      }
    }

    /** The reported position is relative to the partition and saturates at 0 in front of it. */
    method Seek(s: SeekFrom) returns (r: Result<u64>, ghost did: seq<Event>)
      modifies handle
      ensures handle.log == old(handle.log) + did
      ensures r.Ok? ==> DeviceStep(handle.bytes, offset, old(handle.pos), SeekTo(s), Position(r.value))
      ensures r.Ok? ==> handle.pos == SeekTarget(|handle.bytes|, offset, old(handle.pos), s)
      ensures r.Err? ==> handle.pos == old(handle.pos)
      ensures r.Ok? <==> NoFailure(did)
      ensures r.Err? && 0 <= SeekTarget(|handle.bytes|, offset, old(handle.pos), s) < TWO63 ==>
                !Healthy(|handle.bytes|, did) && !FullService(|handle.bytes|, did)
    {
      var target := match s
        case Start(n) => AsI64(Add64(offset, n))
        case Current(d) => handle.pos + d
        case End(e) => |handle.bytes| + e;
      var ok := handle.SetFilePointer(target);
      did := [Sought(target, ok)];
      assert did[0] in did;
      if !SeekServed(target, ok) {
        FailureIsUnhealthy(|handle.bytes|, did, 0);
      }
      r := if ok then Ok(SaturatingSub(handle.pos, offset)) else Err;
    }

    /** Read::read_exact: repeat Read until the buffer is full; an empty read is an error. */
    method ReadExact(buf: array<byte>) returns (r: Result<()>, ghost did: seq<Event>)
      modifies handle, buf
      ensures handle.log == old(handle.log) + did
      ensures r.Ok? ==> Carries(handle.bytes, old(handle.pos), buf[..]) && handle.pos == old(handle.pos) + buf.Length
      ensures old(handle.pos) + buf.Length <= |handle.bytes| && Healthy(|handle.bytes|, did) ==> r.Ok?
      ensures r.Ok? ==> NoFailure(did)
    {
      var filled := 0;
      ghost var start := handle.pos;
      did := [];
      while filled < buf.Length
        invariant 0 <= filled <= buf.Length
        invariant handle.pos == start + filled && handle.log == old(handle.log) + did
        invariant Carries(handle.bytes, start, buf[..filled]) && NoFailure(did)
      {
        ghost var done := buf[..filled];
        var got; ghost var step;
        got, step := Read(buf, filled, buf.Length);
        ServiceParts(|handle.bytes|, did, step);
        did := did + step;
        if got == Err || got.value == 0 {
          return Err, did;
        }
        CarriesConcat(handle.bytes, start, done, buf[filled..filled + got.value]);
        assert buf[..filled + got.value] == done + buf[filled..filled + got.value];
        filled := filled + got.value;
      }
      assert buf[..] == buf[..filled];
      r := Ok(());
    }
  }
}
