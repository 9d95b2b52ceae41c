/**
 The APFS structure walk of src/disk.rs: little-endian fields, the object-map node scan, and the path
 from the container superblock to the two counters of the volume superblock. Field positions follow
 the chapters "Container", "Object Maps" and "Volumes" of the Apple File System Reference.
 */
module Structures {
  import opened Basics
  import opened Device
  import opened Disk

  // ---- Little-endian numbers ------------------------------------------------------------------

  function Pow256(k: nat): nat {
    if k == 0 then 1 else 256 * Pow256(k - 1)
  }

  /** from_le_bytes. */
  function Number(bs: seq<byte>): (n: nat)
    ensures n < Pow256(|bs|)
  {
    if bs == [] then 0 else bs[0] as int + 256 * Number(bs[1..])
  }

  /** to_le_bytes, k bytes wide. */
  function Bytes(n: nat, k: nat): (bs: seq<byte>)
    ensures |bs| == k
  {
    if k == 0 then [] else [(n % 256) as byte] + Bytes(n / 256, k - 1)
  }

  lemma {:induction false} NumberOfBytes(n: nat, k: nat)
    requires n < Pow256(k)
    ensures Number(Bytes(n, k)) == n
  {
    if k > 0 {
      NumberOfBytes(n / 256, k - 1);
      assert Bytes(n, k)[1..] == Bytes(n / 256, k - 1);
    }
  }

  function U32At(b: seq<byte>, o: nat): u32
    requires o + 4 <= |b|
  {
    assert Pow256(4) == TWO32;
    Number(b[o..o + 4])
  }

  function U64At(b: seq<byte>, o: nat): u64
    requires o + 8 <= |b|
  {
    assert Pow256(8) == TWO64;
    Number(b[o..o + 8])
  }

  /** A number from byte i on is that byte, and 256 times the number from the next byte on. */
  lemma NumberFrom(b: seq<byte>, i: nat)
    requires i < |b|
    ensures Number(b[i..]) == b[i] as int + 0x100 * Number(b[i + 1..])
  {
    assert b[i..][1..] == b[i + 1..];
  }

  lemma FourBytes(b: seq<byte>)
    requires |b| >= 4
    ensures Number(b) == b[0] as int + 0x100 * b[1] as int + 0x1_0000 * b[2] as int + 0x100_0000 * b[3] as int
                         + 0x1_0000_0000 * Number(b[4..])
  {
    assert b[0..] == b;
    NumberFrom(b, 0);
    NumberFrom(b, 1);
    NumberFrom(b, 2);
    NumberFrom(b, 3);
  }

  /** The least significant byte comes first. */
  lemma LittleEndian(b: seq<byte>, o: nat)
    requires o + 8 <= |b|
    ensures U32At(b, o) == b[o] as int + 0x100 * b[o + 1] as int + 0x1_0000 * b[o + 2] as int
                           + 0x100_0000 * b[o + 3] as int
    ensures U64At(b, o) == U32At(b, o) + 0x1_0000_0000 * U32At(b, o + 4)
  {
    var w := b[o..o + 8];
    FourBytes(b[o..o + 4]);
    assert b[o..o + 4][4..] == [] && Number([]) == 0;
    FourBytes(w);
    assert w[4..] == b[o + 4..o + 8];
  }

  // ---- search_btree_node ------------------------------------------------------------------------

  const MAX_PADDR := 1000000000

  /** A key at o that matches, with a plausible address 24 bytes further on. */
  predicate HitAt(node: seq<byte>, target: u64, o: nat) {
    && 72 <= o && o % 8 == 0 && o + 32 <= |node|
    && U64At(node, o) == target && 0 < U64At(node, o + 24) < MAX_PADDR
  }

  ghost predicate LeastHit(node: seq<byte>, target: u64, o: nat) {
    HitAt(node, target, o) && forall q: nat :: HitAt(node, target, q) ==> o <= q
  }

  /** The address the scan should find: the one at the least hit. */
  ghost predicate IsFirstHit(node: seq<byte>, target: u64, paddr: u64) {
    exists o: nat :: LeastHit(node, target, o) && paddr == U64At(node, o + 24)
  }

  ghost predicate NoHit(node: seq<byte>, target: u64) {
    forall o: nat :: !HitAt(node, target, o)
  }

  /** A node of any length: the least hit at 72, 80, 88, … or an error exactly when there is none. */
  method SearchBtreeNode(node: seq<byte>, target: u64) returns (r: Result<u64>)
    ensures r.Ok? ==> IsFirstHit(node, target, r.value)
    ensures r.Err? <==> NoHit(node, target)
  {
    var offset := 72;
    while offset + 32 <= |node|
      invariant 72 <= offset && offset % 8 == 0
      invariant forall o: nat :: HitAt(node, target, o) ==> offset <= o
      decreases |node| - offset
    {
      var oid := U64At(node, offset);
      if oid == target {
        var valOffset := offset + 16;
        assert valOffset + 16 <= |node|;
        if valOffset + 16 <= |node| {
          var paddr := U64At(node, valOffset + 8);
          if paddr > 0 && paddr < MAX_PADDR {
            assert LeastHit(node, target, offset);
            return Ok(paddr);
          }
        }
      }
      assert !HitAt(node, target, offset);
      offset := offset + 8;
    }
    r := Err;
  }

  lemma FirstHitIsUnique(node: seq<byte>, target: u64, a: u64, b: u64)
    requires IsFirstHit(node, target, a) && IsFirstHit(node, target, b)
    ensures a == b && !NoHit(node, target)
  {
    var o: nat :| LeastHit(node, target, o) && a == U64At(node, o + 24);
    var p: nat :| LeastHit(node, target, p) && b == U64At(node, p + 24);
  }

  // ---- The walk ---------------------------------------------------------------------------------

  const BUFFER_SIZE := 4096

  /** The 4096 bytes at partition address `addr`, if seeking there and reading them is possible. */
  function BufferAt(bytes: Image, offset: u64, addr: u64): (r: Option<seq<byte>>)
    ensures r.Some? ==> |r.value| == BUFFER_SIZE
  {
    var p := AsI64(Add64(offset, addr));
    if 0 <= p && p + BUFFER_SIZE <= |bytes| then Some(bytes[p..p + BUFFER_SIZE]) else None
  }

  lemma SmallProductIsExact(block: u64, blockSize: u32)
    requires block * blockSize < TWO64
    ensures BlockAddress(block, blockSize) == block * blockSize
  {
  }

  /** Block number times block size, as a u64 of a release build. */
  function BlockAddress(block: u64, blockSize: u32): u64 {
    Wrap(block * blockSize)
  }

  /** The counters of the volume superblock at the address the node scan finds. */
  ghost predicate NodeLeadsTo(bytes: Image, offset: u64, blockSize: u32, volumeOid: u64, node: seq<byte>,
                              alloced: u64, freed: u64) {
    exists paddr :: IsFirstHit(node, volumeOid, paddr) &&
      match BufferAt(bytes, offset, BlockAddress(paddr, blockSize))
      case None => false
      case Some(vsb) => alloced == U64At(vsb, 224) && freed == U64At(vsb, 232)
  }

  ghost predicate ObjectMapLeadsTo(bytes: Image, offset: u64, blockSize: u32, volumeOid: u64, omapOid: u64,
                                   alloced: u64, freed: u64) {
    match BufferAt(bytes, offset, BlockAddress(omapOid, blockSize))
    case None => false
    case Some(omap) =>
      match BufferAt(bytes, offset, BlockAddress(U64At(omap, 48), blockSize))
      case None => false
      case Some(node) => NodeLeadsTo(bytes, offset, blockSize, volumeOid, node, alloced, freed)
  }

  /** The pair is what the walk superblock, object map, root node, scanned address leads to. */
  ghost predicate WalkLeadsTo(bytes: Image, offset: u64, alloced: u64, freed: u64) {
    match BufferAt(bytes, offset, 0)
    case None => false
    case Some(sb) =>
      U64At(sb, 184) != 0 &&
      ObjectMapLeadsTo(bytes, offset, U32At(sb, 36), U64At(sb, 184), U64At(sb, 160), alloced, freed)
  }

  lemma NodeIsFunctional(bytes: Image, offset: u64, blockSize: u32, volumeOid: u64, node: seq<byte>, a: u64, f: u64,
                         a': u64, f': u64)
    requires NodeLeadsTo(bytes, offset, blockSize, volumeOid, node, a, f)
    requires NodeLeadsTo(bytes, offset, blockSize, volumeOid, node, a', f')
    ensures a == a' && f == f'
  {
    forall p, q | IsFirstHit(node, volumeOid, p) && IsFirstHit(node, volumeOid, q)
      ensures p == q
    {
      FirstHitIsUnique(node, volumeOid, p, q);
    }
  }

  /** There is one pair at most where the walk leads. */
  lemma WalkIsFunctional(bytes: Image, offset: u64, a: u64, f: u64, a': u64, f': u64)
    requires WalkLeadsTo(bytes, offset, a, f) && WalkLeadsTo(bytes, offset, a', f')
    ensures a == a' && f == f'
  {
    var sb := BufferAt(bytes, offset, 0).value;
    var omap := BufferAt(bytes, offset, BlockAddress(U64At(sb, 160), U32At(sb, 36))).value;
    var node := BufferAt(bytes, offset, BlockAddress(U64At(omap, 48), U32At(sb, 36))).value;
    NodeIsFunctional(bytes, offset, U32At(sb, 36), U64At(sb, 184), node, a, f, a', f');
  }

  /** With the scanned address out of reach the node leads nowhere. */
  lemma NodeLeadsNowhere(bytes: Image, offset: u64, blockSize: u32, volumeOid: u64, node: seq<byte>, paddr: u64)
    requires IsFirstHit(node, volumeOid, paddr) && BufferAt(bytes, offset, BlockAddress(paddr, blockSize)) == None
    ensures forall a, f :: !NodeLeadsTo(bytes, offset, blockSize, volumeOid, node, a, f)
  {
    forall p | IsFirstHit(node, volumeOid, p)
      ensures p == paddr
    {
      FirstHitIsUnique(node, volumeOid, p, paddr);
    }
  }

  /** Seek to a partition address and fill the buffer. */
  method FetchBuffer(disk: DiskReader, addr: u64, buffer: array<byte>) returns (r: Result<()>, ghost did: seq<Event>)
    requires buffer.Length == BUFFER_SIZE
    modifies disk.handle, buffer
    ensures disk.handle.log == old(disk.handle.log) + did
    ensures r.Ok? ==> NoFailure(did)
    ensures r.Ok? ==> BufferAt(disk.handle.bytes, disk.offset, addr) == Some(buffer[..])
    ensures Healthy(|disk.handle.bytes|, did) ==> (r.Ok? <==> BufferAt(disk.handle.bytes, disk.offset, addr).Some?)
  {
    var at; ghost var rest;
    at, did := disk.Seek(Start(addr));
    if at == Err {
      return Err, did;
    }
    r, rest := disk.ReadExact(buffer);
    ServiceParts(|disk.handle.bytes|, did, rest);
    did := did + rest;
  }

  method ReadApfsContainerSize(disk: DiskReader) returns (r: Result<u64>, ghost did: seq<Event>)
    modifies disk.handle
    ensures disk.handle.log == old(disk.handle.log) + did
    ensures r.Ok? ==> NoFailure(did)
    ensures r.Ok? ==> BufferAt(disk.handle.bytes, disk.offset, 0).Some?
    ensures r.Ok? ==> (var sb := BufferAt(disk.handle.bytes, disk.offset, 0).value;
                       r.value == BlockAddress(U64At(sb, 40), U32At(sb, 36)))
    ensures Healthy(|disk.handle.bytes|, did) ==> (r.Ok? <==> BufferAt(disk.handle.bytes, disk.offset, 0).Some?)
  {
    var buffer := new byte[BUFFER_SIZE](_ => 0);
    var ok;
    ok, did := FetchBuffer(disk, 0, buffer);
    if ok == Err {
      return Err, did;
    }
    var b := buffer[..];
    r := Ok(BlockAddress(U64At(b, 40), U32At(b, 36)));
  }

  /** The last step of the walk: scan the root node, then read the volume superblock. */
  method ReadVolumeCounters(disk: DiskReader, node: seq<byte>, volumeOid: u64, blockSize: u32, buffer: array<byte>)
    returns (r: Result<(u64, u64)>, ghost did: seq<Event>)
    requires buffer.Length == BUFFER_SIZE
    modifies disk.handle, buffer
    ensures disk.handle.log == old(disk.handle.log) + did
    ensures r.Ok? ==> NoFailure(did)
    ensures r.Ok? ==> NodeLeadsTo(disk.handle.bytes, disk.offset, blockSize, volumeOid, node, r.value.0, r.value.1)
    ensures r.Err? && Healthy(|disk.handle.bytes|, did) ==>
              forall a, f :: !NodeLeadsTo(disk.handle.bytes, disk.offset, blockSize, volumeOid, node, a, f)
  {
    did := [];
    var paddr := SearchBtreeNode(node, volumeOid);
    if paddr == Err {
      return Err, did;
    }
    var ok;
    ok, did := FetchBuffer(disk, BlockAddress(paddr.value, blockSize), buffer);
    if ok == Err {
      if Healthy(|disk.handle.bytes|, did) {
        NodeLeadsNowhere(disk.handle.bytes, disk.offset, blockSize, volumeOid, node, paddr.value);
      }
      return Err, did;
    }
    var vsb := buffer[..];
    r := Ok((U64At(vsb, 224), U64At(vsb, 232)));
  }

  /** The middle of the walk: object map, then the root node of its tree. */
  method ReadThroughObjectMap(disk: DiskReader, omapOid: u64, volumeOid: u64, blockSize: u32, buffer: array<byte>)
    returns (r: Result<(u64, u64)>, ghost did: seq<Event>)
    requires buffer.Length == BUFFER_SIZE
    modifies disk.handle, buffer
    ensures disk.handle.log == old(disk.handle.log) + did
    ensures r.Ok? ==> NoFailure(did)
    ensures r.Ok? ==>
              ObjectMapLeadsTo(disk.handle.bytes, disk.offset, blockSize, volumeOid, omapOid, r.value.0, r.value.1)
    ensures r.Err? && Healthy(|disk.handle.bytes|, did) ==>
              forall a, f :: !ObjectMapLeadsTo(disk.handle.bytes, disk.offset, blockSize, volumeOid, omapOid, a, f)
  {
    ghost var size := |disk.handle.bytes|;
    var ok; ghost var step;
    ok, did := FetchBuffer(disk, BlockAddress(omapOid, blockSize), buffer);
    if ok == Err {
      return Err, did;
    }
    ghost var omap := buffer[..];
    var treeOid := U64At(buffer[..], 48);
    ok, step := FetchBuffer(disk, BlockAddress(treeOid, blockSize), buffer);
    ServiceParts(size, did, step);
    did := did + step;
    if ok == Err {
      return Err, did;
    }
    r, step := ReadVolumeCounters(disk, buffer[..], volumeOid, blockSize, buffer);
    ServiceParts(size, did, step);
    did := did + step;
  }

  /** Sound always; on a behaving device it fails only if the walk leads nowhere. */
  method ReadApfsVolumeSpace(disk: DiskReader) returns (r: Result<(u64, u64)>, ghost did: seq<Event>)
    modifies disk.handle
    ensures disk.handle.log == old(disk.handle.log) + did
    ensures r.Ok? ==> NoFailure(did)
    ensures r.Ok? ==> WalkLeadsTo(disk.handle.bytes, disk.offset, r.value.0, r.value.1)
    ensures r.Err? && Healthy(|disk.handle.bytes|, did) ==>
              forall a, f :: !WalkLeadsTo(disk.handle.bytes, disk.offset, a, f)
  {
    var buffer := new byte[BUFFER_SIZE](_ => 0);
    var ok; ghost var step;
    ok, did := FetchBuffer(disk, 0, buffer);
    if ok == Err {
      return Err, did;
    }
    var sb := buffer[..];
    var blockSize, omapOid, volumeOid := U32At(sb, 36), U64At(sb, 160), U64At(sb, 184);
    if volumeOid == 0 {
      return Err, did;
    }
    r, step := ReadThroughObjectMap(disk, omapOid, volumeOid, blockSize, buffer);
    ServiceParts(|disk.handle.bytes|, did, step);
    did := did + step;
  }
}
