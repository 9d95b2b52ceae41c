/** Fields written over any disk image, and the proof that the walk reads a container back. */
module Images {
  import opened Basics
  import opened Device
  import opened Disk
  import opened Structures

  /** A little-endian number of `width` bytes at a byte position. */
  datatype Field = Field(at: nat, width: nat, value: nat)

  predicate Fits(f: Field) {
    f.value < Pow256(f.width)
  }

  predicate Apart(f: Field, g: Field) {
    f.at + f.width <= g.at || g.at + g.width <= f.at
  }

  predicate AllApart(fs: seq<Field>) {
    forall i, j :: 0 <= i < j < |fs| ==> Apart(fs[i], fs[j])
  }

  /** Byte p after writing; the fields win over what was there before. */
  function ByteOf(fs: seq<Field>, p: nat, before: byte): byte {
    if fs == [] then before
    else if fs[0].at <= p < fs[0].at + fs[0].width then Bytes(fs[0].value, fs[0].width)[p - fs[0].at]
    else ByteOf(fs[1..], p, before)
  }

  /** The fields written over `disk`; what they do not touch stays. */
  function Overwrite(disk: seq<byte>, fs: seq<Field>): seq<byte> {
    seq(|disk|, p requires 0 <= p < |disk| => ByteOf(fs, p, disk[p]))
  }

  lemma {:induction false} ByteOfField(fs: seq<Field>, i: nat, p: nat, before: byte)
    requires i < |fs| && AllApart(fs) && fs[i].at <= p < fs[i].at + fs[i].width
    ensures ByteOf(fs, p, before) == Bytes(fs[i].value, fs[i].width)[p - fs[i].at]
    decreases |fs|
  {
    if i > 0 {
      assert Apart(fs[0], fs[i]);
      ByteOfField(fs[1..], i - 1, p, before);
    }
  }

  lemma {:induction false} ByteOfGap(fs: seq<Field>, p: nat, before: byte)
    requires forall i :: 0 <= i < |fs| ==> !(fs[i].at <= p < fs[i].at + fs[i].width)
    ensures ByteOf(fs, p, before) == before
    decreases |fs|
  {
    if fs != [] {
      ByteOfGap(fs[1..], p, before);
    }
  }

  /** Every field is read back as written. */
  lemma FieldReadsBack(disk: seq<byte>, fs: seq<Field>, i: nat)
    requires i < |fs| && AllApart(fs) && Fits(fs[i]) && fs[i].at + fs[i].width <= |disk|
    ensures Number(Overwrite(disk, fs)[fs[i].at..fs[i].at + fs[i].width]) == fs[i].value
  {
    var f := fs[i];
    var part, written := Overwrite(disk, fs)[f.at..f.at + f.width], Bytes(f.value, f.width);
    forall k | 0 <= k < f.width
      ensures part[k] == written[k]
    {
      ByteOfField(fs, i, f.at + k, disk[f.at + k]);
    }
    assert part == written;
    NumberOfBytes(f.value, f.width);
  }

  /** A stretch that no field touches stays as it was. */
  lemma GapStays(disk: seq<byte>, fs: seq<Field>, at: nat, width: nat)
    requires forall i :: 0 <= i < |fs| ==> Apart(fs[i], Field(at, width, 0))
    requires at + width <= |disk|
    ensures Overwrite(disk, fs)[at..at + width] == disk[at..at + width]
  {
    var part, was := Overwrite(disk, fs)[at..at + width], disk[at..at + width];
    forall k | 0 <= k < width
      ensures part[k] == was[k]
    {
      forall i | 0 <= i < |fs|
        ensures !(fs[i].at <= at + k < fs[i].at + fs[i].width)
      {
        assert Apart(fs[i], Field(at, width, 0));
      }
      ByteOfGap(fs, at + k, disk[at + k]);
    }
  }

  // ---- A container with one volume --------------------------------------------------------------

  /** Block numbers and counters; the object map entry is the `slot`-th 8-byte word of the node. */
  datatype Container = Container(blockSize: nat, omap: nat, volumeOid: nat, tree: nat, paddr: nat,
                                 alloced: nat, freed: nat, slot: nat)

  predicate Valid(c: Container, size: nat) {
    && BUFFER_SIZE <= c.blockSize < TWO32
    && 0 < c.volumeOid < TWO64 && c.alloced < TWO64 && c.freed < TWO64
    && 0 < c.omap && 0 < c.tree && 0 < c.paddr < MAX_PADDR
    && c.omap != c.tree && c.omap != c.paddr && c.tree != c.paddr
    && 72 + 8 * c.slot + 32 <= BUFFER_SIZE
    && Start(c.omap, c.blockSize) + BUFFER_SIZE <= size
    && Start(c.tree, c.blockSize) + BUFFER_SIZE <= size
    && Start(c.paddr, c.blockSize) + BUFFER_SIZE <= size
    && size < TWO63
  }

  /** Where a block starts: block times block size. */
  function Start(block: nat, blockSize: nat): nat {
    if block == 0 then 0 else Start(block - 1, blockSize) + blockSize
  }

  lemma {:induction false} StartIsProduct(block: nat, blockSize: nat)
    ensures Start(block, blockSize) == block * blockSize
  {
    if block > 0 {
      StartIsProduct(block - 1, blockSize);
    }
  }

  /** The fields, for object map, node and volume superblock at byte positions o, t and v. */
  function Fields(c: Container, o: nat, t: nat, v: nat): seq<Field> {
    [Field(36, 4, c.blockSize), Field(160, 8, c.omap), Field(184, 8, c.volumeOid),
     Field(o + 48, 8, c.tree),
     Field(t + 72 + 8 * c.slot, 8, c.volumeOid), Field(t + 72 + 8 * c.slot + 24, 8, c.paddr),
     Field(v + 224, 8, c.alloced), Field(v + 232, 8, c.freed)]
  }

  predicate Far(a: nat, b: nat) {
    a + BUFFER_SIZE <= b || b + BUFFER_SIZE <= a
  }

  predicate BlocksApart(o: nat, t: nat, v: nat) {
    Far(0, o) && Far(0, t) && Far(0, v) && Far(o, t) && Far(o, v) && Far(t, v)
  }

  lemma {:induction false} StartGrows(a: nat, b: nat, blockSize: nat)
    requires a < b
    ensures Start(b, blockSize) >= Start(a, blockSize) + blockSize
  {
    if a < b - 1 {
      StartGrows(a, b - 1, blockSize);
    }
  }

  lemma BlocksAreFar(a: nat, b: nat, blockSize: nat)
    requires a != b && blockSize >= BUFFER_SIZE
    ensures Far(Start(a, blockSize), Start(b, blockSize))
  {
    if a < b {
      StartGrows(a, b, blockSize);
    } else {
      StartGrows(b, a, blockSize);
    }
  }

  lemma {:induction false} BlockNumberIsSmall(block: nat, blockSize: nat)
    requires blockSize >= 1
    ensures block <= Start(block, blockSize)
  {
    if block > 0 {
      BlockNumberIsSmall(block - 1, blockSize);
    }
  }

  lemma FieldsAreApart(c: Container, o: nat, t: nat, v: nat)
    requires BlocksApart(o, t, v) && 72 + 8 * c.slot + 32 <= BUFFER_SIZE
    ensures AllApart(Fields(c, o, t, v))
  {
  }

  /** A field inside the buffer that starts at b. */
  lemma BufferField(img: seq<byte>, b: nat, o: nat, width: nat)
    requires o + width <= BUFFER_SIZE && b + BUFFER_SIZE <= |img|
    ensures img[b..b + BUFFER_SIZE][o..o + width] == img[b + o..b + o + width]
  {
    CutOfCut(img, b, b + BUFFER_SIZE, o, o + width);
  }

  lemma FieldInBuffer(disk: seq<byte>, fs: seq<Field>, i: nat, b: nat, o: nat)
    requires i < |fs| && AllApart(fs) && Fits(fs[i]) && fs[i].at == b + o
    requires o + fs[i].width <= BUFFER_SIZE && b + BUFFER_SIZE <= |disk|
    ensures Number(Overwrite(disk, fs)[b..b + BUFFER_SIZE][o..o + fs[i].width]) == fs[i].value
  {
    FieldReadsBack(disk, fs, i);
    BufferField(Overwrite(disk, fs), b, o, fs[i].width);
  }

  lemma Widths()
    ensures Pow256(4) == TWO32 && Pow256(8) == TWO64
  {
  }

  function Written(disk: seq<byte>, c: Container, o: nat, t: nat, v: nat): seq<byte> {
    Overwrite(disk, Fields(c, o, t, v))
  }

  /** Nothing in front of `at` looks like an entry for the target. */
  ghost predicate NoHitBefore(node: seq<byte>, target: u64, at: nat) {
    forall q: nat :: HitAt(node, target, q) ==> at <= q
  }

  ghost predicate NoWordBefore(node: seq<byte>, target: u64, at: nat)
    requires at <= |node|
  {
    forall q: nat :: 72 <= q && q + 8 <= at ==> U64At(node, q) != target
  }

  /** The writing leaves the words in front of the entry alone. */
  lemma WordBeforeEntryStays(disk: seq<byte>, c: Container, o: nat, t: nat, v: nat, q: nat)
    requires BlocksApart(o, t, v) && t + BUFFER_SIZE <= |disk| && 72 + 8 * c.slot + 32 <= BUFFER_SIZE
    requires 72 <= q && q + 8 <= 72 + 8 * c.slot
    ensures U64At(Written(disk, c, o, t, v)[t..t + BUFFER_SIZE], q) == U64At(disk[t..t + BUFFER_SIZE], q)
  {
    BufferField(Written(disk, c, o, t, v), t, q, 8);
    BufferField(disk, t, q, 8);
    GapStays(disk, Fields(c, o, t, v), t + q, 8);
  }

  /** So it is enough that no word in front of the entry was the volume's number before. */
  lemma NoKeyInFront(disk: seq<byte>, c: Container, o: nat, t: nat, v: nat)
    requires BlocksApart(o, t, v) && t + BUFFER_SIZE <= |disk| && 72 + 8 * c.slot + 32 <= BUFFER_SIZE
    requires c.volumeOid < TWO64 && NoWordBefore(disk[t..t + BUFFER_SIZE], c.volumeOid, 72 + 8 * c.slot)
    ensures NoHitBefore(Written(disk, c, o, t, v)[t..t + BUFFER_SIZE], c.volumeOid, 72 + 8 * c.slot)
  {
    var node, at := Written(disk, c, o, t, v)[t..t + BUFFER_SIZE], 72 + 8 * c.slot;
    forall q: nat | HitAt(node, c.volumeOid, q)
      ensures at <= q
    {
      if q < at {
        WordBeforeEntryStays(disk, c, o, t, v, q);
        assert false;
      }
    }
  }

  lemma EntryIsHit(disk: seq<byte>, c: Container, o: nat, t: nat, v: nat)
    requires Valid(c, |disk|) && BlocksApart(o, t, v) && t + BUFFER_SIZE <= |disk|
    ensures HitAt(Written(disk, c, o, t, v)[t..t + BUFFER_SIZE], c.volumeOid, 72 + 8 * c.slot)
    ensures U64At(Written(disk, c, o, t, v)[t..t + BUFFER_SIZE], 72 + 8 * c.slot + 24) == c.paddr
  {
    Widths();
    FieldsAreApart(c, o, t, v);
    FieldInBuffer(disk, Fields(c, o, t, v), 4, t, 72 + 8 * c.slot);
    FieldInBuffer(disk, Fields(c, o, t, v), 5, t, 72 + 8 * c.slot + 24);
  }

  /** The written entry is the first hit of the scan, if nothing in front of it was one. */
  lemma NodeScanFindsEntry(disk: seq<byte>, c: Container, o: nat, t: nat, v: nat)
    requires Valid(c, |disk|) && BlocksApart(o, t, v) && t + BUFFER_SIZE <= |disk|
    requires NoHitBefore(Written(disk, c, o, t, v)[t..t + BUFFER_SIZE], c.volumeOid, 72 + 8 * c.slot)
    ensures IsFirstHit(Written(disk, c, o, t, v)[t..t + BUFFER_SIZE], c.volumeOid, c.paddr)
  {
    EntryIsHit(disk, c, o, t, v);
    assert LeastHit(Written(disk, c, o, t, v)[t..t + BUFFER_SIZE], c.volumeOid, 72 + 8 * c.slot);
  }

  lemma SuperblockReadsBack(disk: seq<byte>, c: Container, o: nat, t: nat, v: nat)
    requires Valid(c, |disk|) && BlocksApart(o, t, v) && BUFFER_SIZE <= |disk| && c.omap < TWO64
    ensures var sb := Written(disk, c, o, t, v)[0..BUFFER_SIZE];
            U32At(sb, 36) == c.blockSize && U64At(sb, 160) == c.omap && U64At(sb, 184) == c.volumeOid
  {
    Widths();
    FieldsAreApart(c, o, t, v);
    FieldInBuffer(disk, Fields(c, o, t, v), 0, 0, 36);
    FieldInBuffer(disk, Fields(c, o, t, v), 1, 0, 160);
    FieldInBuffer(disk, Fields(c, o, t, v), 2, 0, 184);
  }

  lemma ObjectMapReadsBack(disk: seq<byte>, c: Container, o: nat, t: nat, v: nat)
    requires Valid(c, |disk|) && BlocksApart(o, t, v) && o + BUFFER_SIZE <= |disk| && c.tree < TWO64
    ensures U64At(Written(disk, c, o, t, v)[o..o + BUFFER_SIZE], 48) == c.tree
  {
    Widths();
    FieldsAreApart(c, o, t, v);
    FieldInBuffer(disk, Fields(c, o, t, v), 3, o, 48);
  }

  lemma CountersReadBack(disk: seq<byte>, c: Container, o: nat, t: nat, v: nat)
    requires Valid(c, |disk|) && BlocksApart(o, t, v) && v + BUFFER_SIZE <= |disk|
    ensures U64At(Written(disk, c, o, t, v)[v..v + BUFFER_SIZE], 224) == c.alloced
    ensures U64At(Written(disk, c, o, t, v)[v..v + BUFFER_SIZE], 232) == c.freed
  {
    Widths();
    FieldsAreApart(c, o, t, v);
    FieldInBuffer(disk, Fields(c, o, t, v), 6, v, 224);
    FieldInBuffer(disk, Fields(c, o, t, v), 7, v, 232);
  }

  lemma BufferIsThere(img: Device.Image, p: nat)
    requires p + BUFFER_SIZE <= |img|
    ensures BufferAt(img, 0, p) == Some(img[p..p + BUFFER_SIZE])
  {
  }

  lemma AddressIsStart(block: u64, blockSize: u32)
    requires Start(block, blockSize) < TWO64
    ensures BlockAddress(block, blockSize) == Start(block, blockSize)
  {
    StartIsProduct(block, blockSize);
  }

  /** A disk with the container's fields in their blocks. */
  function WithContainer(disk: seq<byte>, c: Container): (r: seq<byte>)
    ensures |r| == |disk|
  {
    Written(disk, c, Start(c.omap, c.blockSize), Start(c.tree, c.blockSize), Start(c.paddr, c.blockSize))
  }

  /** The container's own entry is the first in its node that the scan can take for it. */
  ghost predicate Readable(disk: seq<byte>, c: Container) {
    var t := Start(c.tree, c.blockSize);
    && Valid(c, |disk|)
    && NoHitBefore(WithContainer(disk, c)[t..t + BUFFER_SIZE], c.volumeOid, 72 + 8 * c.slot)
  }

  /** A container written over any disk leads the walk to exactly its two counters. */
  lemma ContainerReadsBack(disk: seq<byte>, c: Container)
    requires Readable(disk, c)
    ensures WalkLeadsTo(WithContainer(disk, c), 0, c.alloced, c.freed)
  {
    var o, t, v := Start(c.omap, c.blockSize), Start(c.tree, c.blockSize), Start(c.paddr, c.blockSize);
    BlocksAreFar(0, c.omap, c.blockSize);
    BlocksAreFar(0, c.tree, c.blockSize);
    BlocksAreFar(0, c.paddr, c.blockSize);
    BlocksAreFar(c.omap, c.tree, c.blockSize);
    BlocksAreFar(c.omap, c.paddr, c.blockSize);
    BlocksAreFar(c.tree, c.paddr, c.blockSize);
    BlockNumberIsSmall(c.omap, c.blockSize);
    BlockNumberIsSmall(c.tree, c.blockSize);
    LaidOutReadsBack(disk, c, o, t, v);
  }

  lemma LaidOutReadsBack(disk: seq<byte>, c: Container, o: nat, t: nat, v: nat)
    requires Valid(c, |disk|) && BlocksApart(o, t, v) && c.omap < TWO64 && c.tree < TWO64
    requires o == Start(c.omap, c.blockSize) && t == Start(c.tree, c.blockSize) && v == Start(c.paddr, c.blockSize)
    requires NoHitBefore(Written(disk, c, o, t, v)[t..t + BUFFER_SIZE], c.volumeOid, 72 + 8 * c.slot)
    ensures WalkLeadsTo(Written(disk, c, o, t, v), 0, c.alloced, c.freed)
  {
    var img: Device.Image := Written(disk, c, o, t, v);
    SuperblockReadsBack(disk, c, o, t, v);
    ObjectMapReadsBack(disk, c, o, t, v);
    NodeScanFindsEntry(disk, c, o, t, v);
    CountersReadBack(disk, c, o, t, v);
    AddressIsStart(c.omap, c.blockSize);
    AddressIsStart(c.tree, c.blockSize);
    AddressIsStart(c.paddr, c.blockSize);
    BufferIsThere(img, 0);
    BufferIsThere(img, o);
    BufferIsThere(img, t);
    BufferIsThere(img, v);
    PutTogether(c, img, img[0..BUFFER_SIZE], img[o..o + BUFFER_SIZE], img[t..t + BUFFER_SIZE], img[v..v + BUFFER_SIZE],
                o, t, v);
  }

  lemma PutTogether(c: Container, img: Device.Image, sb: seq<byte>, omap: seq<byte>, node: seq<byte>, vsb: seq<byte>,
                    o: u64, t: u64, v: u64)
    requires |sb| == |omap| == |vsb| == BUFFER_SIZE
    requires U32At(sb, 36) == c.blockSize && U64At(sb, 160) == c.omap && U64At(sb, 184) == c.volumeOid != 0
    requires U64At(omap, 48) == c.tree && c.paddr < TWO64
    requires U64At(vsb, 224) == c.alloced && U64At(vsb, 232) == c.freed
    requires BlockAddress(c.omap, c.blockSize) == o && BlockAddress(c.tree, c.blockSize) == t
    requires BlockAddress(c.paddr, c.blockSize) == v
    requires BufferAt(img, 0, 0) == Some(sb) && BufferAt(img, 0, o) == Some(omap)
    requires BufferAt(img, 0, t) == Some(node) && BufferAt(img, 0, v) == Some(vsb)
    requires IsFirstHit(node, c.volumeOid, c.paddr)
    ensures WalkLeadsTo(img, 0, c.alloced, c.freed)
  {
  }

  /** Behind a partition offset the same container reads the same: addresses are partition-relative. */
  lemma ContainerReadsBackBehindOffset(disk: seq<byte>, c: Container, front: seq<byte>)
    requires Readable(disk, c) && |front| + |disk| < TWO63
    ensures WalkLeadsTo(front + WithContainer(disk, c), |front|, c.alloced, c.freed)
  {
    ContainerReadsBack(disk, c);
    WalkMovesWithOffset(front, WithContainer(disk, c), c.alloced, c.freed);
  }

  lemma BufferMovesWithOffset(front: seq<byte>, img: Device.Image, addr: u64)
    requires |front| + |img| < TWO63 && BufferAt(img, 0, addr).Some?
    ensures BufferAt(front + img, |front|, addr) == BufferAt(img, 0, addr)
  {
    assert (front + img)[|front| + addr..|front| + addr + BUFFER_SIZE] == img[addr..addr + BUFFER_SIZE];
  }

  lemma WalkMovesWithOffset(front: seq<byte>, img: Device.Image, a: u64, f: u64)
    requires |front| + |img| < TWO63 && WalkLeadsTo(img, 0, a, f)
    ensures WalkLeadsTo(front + img, |front|, a, f)
  {
    forall addr: u64 | BufferAt(img, 0, addr).Some?
      ensures BufferAt(front + img, |front|, addr) == BufferAt(img, 0, addr)
    {
      BufferMovesWithOffset(front, img, addr);
    }
  }

  /** Running the walk on such a disk: the container's own counters if anything, and on a behaving device always. */
  method ReadWrittenContainer(reader: DiskReader, disk: seq<byte>, c: Container, front: seq<byte>)
    returns (r: Result<(u64, u64)>, ghost did: seq<Event>)
    requires Readable(disk, c) && |front| + |disk| < TWO63
    requires reader.offset == |front| && reader.handle.bytes == front + WithContainer(disk, c)
    modifies reader.handle
    ensures reader.handle.log == old(reader.handle.log) + did
    ensures r.Ok? ==> r.value == (c.alloced, c.freed)
    ensures Healthy(|reader.handle.bytes|, did) ==> r == Ok((c.alloced, c.freed))
  {
    ContainerReadsBackBehindOffset(disk, c, front);
    r, did := ReadApfsVolumeSpace(reader);
    if r.Ok? {
      WalkIsFunctional(reader.handle.bytes, reader.offset, r.value.0, r.value.1, c.alloced, c.freed);
    }
  }
}
