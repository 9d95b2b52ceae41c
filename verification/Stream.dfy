/**
 src/disk.rs as a stream: an absolute handle used through Seek and Read behaves as a byte stream over
 the partition, exactly as long as no operation leaves the partition through its start. DiskReader
 knows no partition length, so the stream ends where the device ends.
 */
module Stream {
  import opened Basics
  import opened Device
  import opened Disk

  datatype Did = Did(op: Op, ans: Answer)

  /** What the partition holds. */
  function Volume(bytes: Image, offset: u64): seq<byte> {
    if offset <= |bytes| then bytes[offset..] else []
  }

  /** Where the stream ends: the length of what it holds, unless the device ends in front of the partition. */
  function EndOf(bytes: Image, offset: u64): (end: int)
    ensures offset <= |bytes| ==> end == |Volume(bytes, offset)|
  {
    |bytes| - offset
  }

  /** The intended meaning: a cursor over the partition alone. */
  function NextCursor(end: int, cursor: nat, e: Did): int {
    match e.op
    case SeekTo(Start(n)) => n
    case SeekTo(Current(d)) => cursor + d
    case SeekTo(End(d)) => end + d
    case ReadUpTo(_) => if e.ans.Data? then cursor + |e.ans.d| else cursor
  }

  predicate StreamStep(volume: seq<byte>, end: int, cursor: nat, e: Did) {
    var cursor' := NextCursor(end, cursor, e);
    && cursor' >= 0
    && match e.op
       case SeekTo(_) => e.ans.Position? && e.ans.p == cursor'
       case ReadUpTo(len) => e.ans.Data? && |e.ans.d| <= len && Carries(volume, cursor, e.ans.d)
  }

  predicate DeviceRun(bytes: Image, offset: u64, pos: FilePosition, trace: seq<Did>)
    decreases |trace|
  {
    trace == [] ||
    (DeviceStep(bytes, offset, pos, trace[0].op, trace[0].ans) &&
     DeviceRun(bytes, offset, NextPosition(|bytes|, offset, pos, trace[0].op, trace[0].ans), trace[1..]))
  }

  predicate StreamRun(volume: seq<byte>, end: int, cursor: nat, trace: seq<Did>)
    decreases |trace|
  {
    trace == [] ||
    (StreamStep(volume, end, cursor, trace[0]) &&
     StreamRun(volume, end, NextCursor(end, cursor, trace[0]), trace[1..]))
  }

  /** The guard a caller can check: no u64 overflow, no step in front of the partition. */
  predicate StaysInside(offset: u64, end: int, cursor: nat, e: Did) {
    match e.op
    case SeekTo(Start(n)) => offset + n < TWO64
    case SeekTo(Current(d)) => cursor + d >= 0
    case SeekTo(End(d)) => end + d >= 0
    case ReadUpTo(_) => true
  }

  predicate RunStaysInside(offset: u64, end: int, cursor: nat, trace: seq<Did>)
    decreases |trace|
  {
    trace == [] ||
    (StaysInside(offset, end, cursor, trace[0]) &&
     RunStaysInside(offset, end, NextCursor(end, cursor, trace[0]), trace[1..]))
  }

  lemma VolumeCarries(bytes: Image, offset: u64, cursor: nat, data: seq<byte>)
    ensures Carries(bytes, offset + cursor, data) <==> Carries(Volume(bytes, offset), cursor, data)
  {
    var volume := Volume(bytes, offset);
    if |data| > 0 && offset + cursor + |data| <= |bytes| {
      CutOfCut(bytes, offset, |bytes|, cursor, cursor + |data|);
    }
  }

  /** One successful operation is a stream operation if and only if it stays inside. */
  lemma StepRefinesStream(bytes: Image, offset: u64, cursor: nat, e: Did)
    requires offset + cursor < TWO63
    requires DeviceStep(bytes, offset, offset + cursor, e.op, e.ans)
    ensures var volume, end := Volume(bytes, offset), EndOf(bytes, offset);
            && (StreamStep(volume, end, cursor, e) <==> StaysInside(offset, end, cursor, e))
            && (StaysInside(offset, end, cursor, e) ==>
                  NextPosition(|bytes|, offset, offset + cursor, e.op, e.ans) == offset + NextCursor(end, cursor, e))
  {
    if e.op.ReadUpTo? {
      VolumeCarries(bytes, offset, cursor, e.ans.d);
    }
  }

  /** Any run of successful operations is a run of the partition stream if and only if it stays inside. */
  lemma {:induction false} RunRefinesStream(bytes: Image, offset: u64, cursor: nat, trace: seq<Did>)
    requires offset + cursor < TWO63
    requires DeviceRun(bytes, offset, offset + cursor, trace)
    ensures StreamRun(Volume(bytes, offset), EndOf(bytes, offset), cursor, trace)
       <==> RunStaysInside(offset, EndOf(bytes, offset), cursor, trace)
    decreases |trace|
  {
    if trace != [] {
      StepRefinesStream(bytes, offset, cursor, trace[0]);
      if StaysInside(offset, EndOf(bytes, offset), cursor, trace[0]) {
        RunRefinesStream(bytes, offset, NextCursor(EndOf(bytes, offset), cursor, trace[0]), trace[1..]);
      }
    }
  }

  /**
   A fresh handle stands at absolute 0, wherever the partition is; the first `Start` seek brings the
   refinement into force from any file pointer.
   */
  lemma StartSeekEntersStream(bytes: Image, offset: u64, pos: FilePosition, n: u64, ans: Answer, trace: seq<Did>)
    requires offset + n < TWO64
    requires DeviceRun(bytes, offset, pos, [Did(SeekTo(Start(n)), ans)] + trace)
    requires RunStaysInside(offset, EndOf(bytes, offset), n, trace)
    ensures ans == Position(n) && StreamRun(Volume(bytes, offset), EndOf(bytes, offset), n, trace)
  {
    assert ([Did(SeekTo(Start(n)), ans)] + trace)[1..] == trace;
    RunRefinesStream(bytes, offset, n, trace);
  }

  // ---- Splitting reads ----------------------------------------------------------------------

  predicate OnlyReads(trace: seq<Did>) {
    forall i :: 0 <= i < |trace| ==> trace[i].op.ReadUpTo? && trace[i].ans.Data?
  }

  function Joined(trace: seq<Did>): seq<byte>
    requires OnlyReads(trace)
  {
    if trace == [] then [] else trace[0].ans.d + Joined(trace[1..])
  }

  lemma {:induction false} ReadsConcatenate(bytes: Image, offset: u64, pos: FilePosition, trace: seq<Did>)
    requires OnlyReads(trace) && DeviceRun(bytes, offset, pos, trace)
    ensures Carries(bytes, pos, Joined(trace))
    decreases |trace|
  {
    if trace != [] {
      ReadsConcatenate(bytes, offset, pos + |trace[0].ans.d|, trace[1..]);
      CarriesConcat(bytes, pos, trace[0].ans.d, Joined(trace[1..]));
    }
  }

  /** However a read is split, and however the device shortens the parts, the bytes are the same. */
  lemma SplitsAgree(bytes: Image, offset: u64, pos: FilePosition, a: seq<Did>, b: seq<Did>)
    requires OnlyReads(a) && DeviceRun(bytes, offset, pos, a)
    requires OnlyReads(b) && DeviceRun(bytes, offset, pos, b)
    requires |Joined(a)| <= |Joined(b)|
    ensures Joined(a) <= Joined(b)
  {
    ReadsConcatenate(bytes, offset, pos, a);
    ReadsConcatenate(bytes, offset, pos, b);
  }

  // ---- The three ways to reach a byte -------------------------------------------------------

  /** Up to n bytes from `pos`, as far as they exist. */
  function Held(bytes: seq<byte>, pos: nat, n: nat): seq<byte> {
    if pos <= |bytes| then bytes[pos..Min(pos + n, |bytes|)] else []
  }

  lemma HeldInVolume(bytes: Image, offset: u64, p: nat, n: nat, data: seq<byte>)
    requires |data| == Min(n, SaturatingSub(|bytes|, offset + p)) && Carries(bytes, offset + p, data)
    ensures data == Held(Volume(bytes, offset), p, n)
  {
    VolumeCarries(bytes, offset, p, data);
  }

  method ViaReadAt(disk: DiskReader, p: u64, n: nat) returns (r: Result<seq<byte>>, ghost did: seq<Event>)
    requires disk.offset + p < TWO63
    modifies disk.handle
    ensures disk.handle.log == old(disk.handle.log) + did
    ensures FullService(|disk.handle.bytes|, did) ==> r == Ok(Held(Volume(disk.handle.bytes, disk.offset), p, n))
  {
    var buf := new byte[n];
    var count;
    count, did := disk.ReadAt(p, buf, 0, n);
    if count == Err {
      return Err, did;
    }
    if FullService(|disk.handle.bytes|, did) {
      HeldInVolume(disk.handle.bytes, disk.offset, p, n, buf[..count.value]);
    }
    r := Ok(buf[..count.value]);
  }

  method ViaSeek(disk: DiskReader, p: u64, n: nat) returns (r: Result<seq<byte>>, ghost did: seq<Event>)
    requires disk.offset + p < TWO63
    modifies disk.handle
    ensures disk.handle.log == old(disk.handle.log) + did
    ensures FullService(|disk.handle.bytes|, did) ==> r == Ok(Held(Volume(disk.handle.bytes, disk.offset), p, n))
  {
    var buf := new byte[n];
    var at, count; ghost var rest;
    at, did := disk.Seek(Start(p));
    if at == Err {
      return Err, did;
    }
    count, rest := disk.Read(buf, 0, n);
    ServiceParts(|disk.handle.bytes|, did, rest);
    did := did + rest;
    if count == Err {
      return Err, did;
    }
    if FullService(|disk.handle.bytes|, did) {
      HeldInVolume(disk.handle.bytes, disk.offset, p, n, buf[..count.value]);
    }
    r := Ok(buf[..count.value]);
  }

  /** `raw` is the driver's second handle on the same device, opened with offset 0. */
  method ViaRawHandle(raw: DiskReader, offset: u64, p: u64, n: nat)
    returns (r: Result<seq<byte>>, ghost did: seq<Event>)
    requires raw.offset == 0 && offset + p < TWO63
    modifies raw.handle
    ensures raw.handle.log == old(raw.handle.log) + did
    ensures FullService(|raw.handle.bytes|, did) ==> r == Ok(Held(Volume(raw.handle.bytes, offset), p, n))
  {
    var buf := new byte[n];
    var count;
    count, did := raw.ReadAtAbsolute(offset + p, buf, 0, n);
    if count == Err {
      return Err, did;
    }
    if FullService(|raw.handle.bytes|, did) {
      HeldInVolume(raw.handle.bytes, offset, p, n, buf[..count.value]);
    }
    r := Ok(buf[..count.value]);
  }
}
