/** src/driver.rs: ApfsDriver::read, a file read through the extent map and the raw disk handle. */
module FileRead {
  import opened Basics
  import opened Device
  import opened Disk
  import opened Extents

  /** How many bytes a read at `offset` into a buffer of length `len` is asked for. */
  function ToRead(fileSize: u64, offset: u64, len: nat): nat {
    Min(len, SaturatingSub(fileSize, offset))
  }

  /** Position l of the file is owned by an extent and its byte lies below device position `size`. */
  ghost predicate Mapped(ext: seq<Extent>, base: u64, size: nat, l: int) {
    exists i :: 0 <= i < |ext| && Owns(ext[i], l) && base + ext[i].phys + (l - ext[i].log) < size
  }

  ghost predicate AllMapped(ext: seq<Extent>, base: u64, size: nat, lo: nat, hi: nat) {
    forall l :: lo <= l < hi ==> Mapped(ext, base, size, l)
  }

  /** What a caller wants: the file's positions from `offset` on, as many as fit into its buffer. */
  ghost predicate WantedIsMapped(ext: seq<Extent>, base: u64, size: nat, fileSize: u64, offset: u64, room: nat) {
    forall l :: offset <= l < fileSize && l < offset + room ==> Mapped(ext, base, size, l)
  }

  /** Of these positions, those that an extent owns are on the device. */
  ghost predicate OwnedOnDevice(ext: seq<Extent>, base: u64, size: nat, lo: nat, hi: nat) {
    forall i, l :: 0 <= i < |ext| && lo <= l < hi && Owns(ext[i], l) ==> base + ext[i].phys + (l - ext[i].log) < size
  }

  /** Bytes the file holds are mapped. */
  lemma HeldIsMapped(ext: seq<Extent>, base: u64, bytes: seq<byte>, l: nat, data: seq<byte>)
    requires FileHolds(ext, base, bytes, l, data)
    ensures AllMapped(ext, base, |bytes|, l, l + |data|)
  {
    forall p | l <= p < l + |data|
      ensures Mapped(ext, base, |bytes|, p)
    {
      var k := p - l;
      assert ByteAt(ext, base, bytes, l + k, data[k]);
    }
  }

  /** The lookup locates a position below `limit` exactly when the position is mapped below it. */
  lemma MappedIffLocated(ext: seq<Extent>, base: u64, limit: nat, l: u64)
    requires Sound(ext, base) && limit <= TWO63
    ensures Mapped(ext, base, limit, l)
       <==> LogicalToPhysical(ext, l).Some? && Add64(base, LogicalToPhysical(ext, l).value) < limit
  {
    if LogicalToPhysical(ext, l).Some? {
      var i := LocatedHasOwner(ext, base, l);
      LookupsFindOwner(ext, base, l, i);
    }
    if i :| 0 <= i < |ext| && Owns(ext[i], l) {
      LookupsFindOwner(ext, base, l, i);
    }
  }

  /**
   What a behaving device makes of a request for n bytes at lo: Ok(k) has the first k bytes, and if that
   is not all, byte k is owned beyond the end of the device; an error stops at a byte that is in a hole,
   or whose address is no file position, and everything in front of it is on the device.
   */
  ghost predicate Outcome(ext: seq<Extent>, base: u64, size: nat, lo: nat, n: nat, r: Result<nat>) {
    match r
    case Ok(k) =>
      k <= n && AllMapped(ext, base, size, lo, lo + k) &&
      (k < n ==> !Mapped(ext, base, size, lo + k) && Mapped(ext, base, TWO63, lo + k))
    case Err => exists k: nat :: StopsAt(ext, base, size, lo, n, k)
  }

  ghost predicate StopsAt(ext: seq<Extent>, base: u64, size: nat, lo: nat, n: nat, k: nat) {
    k < n && AllMapped(ext, base, size, lo, lo + k) && !Mapped(ext, base, TWO63, lo + k)
  }

  /** Byte k is the first that is not on the device. */
  ghost predicate FirstUnmapped(ext: seq<Extent>, base: u64, size: nat, lo: nat, k: nat) {
    AllMapped(ext, base, size, lo, lo + k) && !Mapped(ext, base, size, lo + k)
  }

  lemma FirstUnmappedIsUnique(ext: seq<Extent>, base: u64, size: nat, lo: nat, j: nat, k: nat)
    requires FirstUnmapped(ext, base, size, lo, j) && FirstUnmapped(ext, base, size, lo, k)
    ensures j == k
  {
    assert j < k ==> Mapped(ext, base, size, lo + j);
    assert k < j ==> Mapped(ext, base, size, lo + k);
  }

  /** The map and the device decide the outcome. */
  lemma OutcomeIsUnique(ext: seq<Extent>, base: u64, size: nat, lo: nat, n: nat, r: Result<nat>, r': Result<nat>)
    requires size < TWO63 && Outcome(ext, base, size, lo, n, r) && Outcome(ext, base, size, lo, n, r')
    ensures r == r'
  {
    var j := Reach(ext, base, size, lo, n, r);
    var k := Reach(ext, base, size, lo, n, r');
    if j < n && k < n {
      FirstUnmappedIsUnique(ext, base, size, lo, j, k);
    }
    assert j < k == n ==> Mapped(ext, base, size, lo + j);
    assert k < j == n ==> Mapped(ext, base, size, lo + k);
  }

  /** How far an outcome reaches. */
  lemma Reach(ext: seq<Extent>, base: u64, size: nat, lo: nat, n: nat, r: Result<nat>) returns (k: nat)
    requires size < TWO63 && Outcome(ext, base, size, lo, n, r)
    ensures k <= n && AllMapped(ext, base, size, lo, lo + k) && (r.Ok? ==> r.value == k)
    ensures k < n ==> FirstUnmapped(ext, base, size, lo, k) && (r.Ok? <==> Mapped(ext, base, TWO63, lo + k))
    ensures r.Err? ==> k < n
  {
    if r.Ok? {
      k := r.value;
    } else {
      k :| StopsAt(ext, base, size, lo, n, k);
    }
  }

  /** A mapped request is read completely; and if what is owned of it is on the device, only a mapped one is read. */
  lemma OutcomeWhenMapped(ext: seq<Extent>, base: u64, size: nat, lo: nat, n: nat, r: Result<nat>)
    requires size < TWO63 && Outcome(ext, base, size, lo, n, r)
    ensures AllMapped(ext, base, size, lo, lo + n) ==> r == Ok(n)
    ensures OwnedOnDevice(ext, base, size, lo, lo + n) && r.Ok? ==> r == Ok(n)
    ensures r == Ok(n) ==> AllMapped(ext, base, size, lo, lo + n)
  {
    var k := Reach(ext, base, size, lo, n, r);
    if k < n {
      assert !Mapped(ext, base, size, lo + k);
    }
  }

  /** A chunk read where the lookup points, cut to its extent, is the file's. */
  lemma ChunkIsHeld(ext: seq<Extent>, base: u64, bytes: Image, l: u64, chunk: seq<byte>)
    requires Sound(ext, base) && LogicalToPhysical(ext, l).Some? && |chunk| <= ExtentRemaining(ext, l)
    requires Carries(bytes, Add64(base, LogicalToPhysical(ext, l).value), chunk)
    ensures FileHolds(ext, base, bytes, l, chunk)
  {
    var i := LocatedHasOwner(ext, base, l);
    LookupsFindOwner(ext, base, l, i);
    ChunkIsFile(ext, base, bytes, i, l, chunk);
  }

  lemma ChunkExtends(ext: seq<Extent>, base: u64, bytes: Image, offset: u64, done: seq<byte>, chunk: seq<byte>)
    requires Sound(ext, base) && FileHolds(ext, base, bytes, offset, done)
    requires offset + |done| < TWO64
    requires LogicalToPhysical(ext, offset + |done|).Some?
    requires |chunk| <= ExtentRemaining(ext, offset + |done|)
    requires Carries(bytes, Add64(base, LogicalToPhysical(ext, offset + |done|).value), chunk)
    ensures FileHolds(ext, base, bytes, offset, done + chunk)
  {
    ChunkIsHeld(ext, base, bytes, offset + |done|, chunk);
    FileHoldsConcat(ext, base, bytes, offset, done, chunk);
  }

  /** The body of the read loop: locate position l, cut the chunk to its extent, read it to buffer[lo..]. */
  method ReadChunk(disk: DiskReader, base: u64, ext: seq<Extent>, l: u64, buffer: array<byte>, lo: nat, hi: nat)
    returns (r: Result<nat>, ghost did: seq<Event>)
    requires lo < hi <= buffer.Length
    modifies disk.handle, buffer
    ensures disk.handle.log == old(disk.handle.log) + did
    ensures r.Ok? ==> r.value <= hi - lo
    ensures r.Ok? ==> buffer[..lo] == old(buffer[..lo]) && buffer[lo + r.value..] == old(buffer[lo + r.value..])
    ensures r.Err? ==> buffer[..] == old(buffer[..])
    ensures buffer[hi..] == old(buffer[hi..])
    ensures r.Ok? <==> NoFailure(did) && LogicalToPhysical(ext, l).Some?
    ensures r.Ok? && Sound(ext, base) ==> FileHolds(ext, base, disk.handle.bytes, l, buffer[lo..lo + r.value])
    ensures Sound(ext, base) && Healthy(|disk.handle.bytes|, did) ==>
              && (r.Ok? <==> Mapped(ext, base, TWO63, l))
              && (r.Ok? ==> (r.value > 0 <==> Mapped(ext, base, |disk.handle.bytes|, l)))
  {
    ghost var size := |disk.handle.bytes|;
    r, did := Ok(0), [];
    var physicalPos := LogicalToPhysical(ext, l);
    if Sound(ext, base) {
      MappedIffLocated(ext, base, size, l);
      MappedIffLocated(ext, base, TWO63, l);
    }
    if physicalPos == None {
      return Err, did;
    }
    var avail := ExtentRemaining(ext, l);
    if avail == 0 {
      // The loop would stop with what it has; the two lookups never disagree like this.
      LookupsSelectTogether(ext, l);
      assert false;
    }
    var chunkSize := Min(hi - lo, avail);
    r, did := disk.ReadAtAbsolute(Add64(base, physicalPos.value), buffer, lo, lo + chunkSize);
    assert r.Ok? ==> buffer[lo + r.value..][hi - lo - r.value..] == buffer[hi..];
    if r.Ok? && Sound(ext, base) {
      ChunkIsHeld(ext, base, disk.handle.bytes, l, buffer[lo..lo + r.value]);
    }
  }

  /** The lookup fails at one of these positions. */
  ghost predicate HasHole(ext: seq<Extent>, lo: u64, n: nat) {
    exists l: u64 :: lo <= l < lo + n && LogicalToPhysical(ext, l) == None
  }

  /** The read loop, under the lock of the raw handle. */
  method ReadChunks(disk: DiskReader, base: u64, ext: seq<Extent>, offset: u64, toRead: nat, buffer: array<byte>)
    returns (r: Result<nat>, ghost did: seq<Event>)
    requires 0 < toRead <= buffer.Length && offset + toRead <= TWO64
    modifies disk.handle, buffer
    ensures disk.handle.log == old(disk.handle.log) + did
    ensures r.Ok? ==> NoFailure(did) && r.value <= toRead && buffer[r.value..] == old(buffer[r.value..])
    ensures r.Err? ==> !NoFailure(did) || HasHole(ext, offset, toRead)
    ensures buffer[toRead..] == old(buffer[toRead..])
    ensures r.Ok? && Sound(ext, base) ==> FileHolds(ext, base, disk.handle.bytes, offset, buffer[..r.value])
    ensures Sound(ext, base) && Healthy(|disk.handle.bytes|, did) ==>
              Outcome(ext, base, |disk.handle.bytes|, offset, toRead, r)
  {
    ghost var bytes, was, sound := disk.handle.bytes, buffer[..], Sound(ext, base);
    var totalRead := 0;
    did := [];
    while totalRead < toRead
      invariant 0 <= totalRead <= toRead && disk.handle.log == old(disk.handle.log) + did
      invariant buffer[totalRead..] == was[totalRead..] && buffer[toRead..] == was[toRead..] && NoFailure(did)
      invariant sound ==> FileHolds(ext, base, bytes, offset, buffer[..totalRead])
    {
      ghost var done, now := buffer[..totalRead], buffer[..];
      var got; ghost var step;
      got, step := ReadChunk(disk, base, ext, offset + totalRead, buffer, totalRead, toRead);
      ServiceParts(|bytes|, did, step);
      did := did + step;
      if sound {
        HeldIsMapped(ext, base, bytes, offset, done);
      }
      if got == Err {
        assert sound && Healthy(|bytes|, did) ==> StopsAt(ext, base, |bytes|, offset, toRead, totalRead);
        return Err, did;
      }
      if got.value == 0 {
        break;
      }
      if sound {
        FileHoldsConcat(ext, base, bytes, offset, done, buffer[totalRead..totalRead + got.value]);
      }
      assert buffer[..totalRead + got.value] == done + buffer[totalRead..totalRead + got.value];
      assert now[totalRead..][got.value..] == was[totalRead..][got.value..];
      totalRead := totalRead + got.value;
    }
    if sound {
      HeldIsMapped(ext, base, bytes, offset, buffer[..totalRead]);
    }
    r := Ok(totalRead);
  }

  /** With nothing to read, the outcome is an empty success. */
  lemma EmptyOutcome(ext: seq<Extent>, base: u64, size: nat, lo: nat)
    ensures Outcome(ext, base, size, lo, 0, Ok(0))
  {
  }

  /**
   The result never exceeds the buffer or the file, and the buffer behind it is untouched. Through a
   sound map every byte returned is the file's byte, and on a behaving device map and device alone decide
   the outcome. In particular what a caller wants is read completely if it is mapped, whatever lies
   elsewhere in the map; a hole never reads as zeros, and a failed call never as a short file.
   */
  method Read(disk: DiskReader, base: u64, ext: seq<Extent>, fileSize: u64, buffer: array<byte>, offset: u64)
    returns (r: Result<u32>, ghost did: seq<Event>)
    requires buffer.Length < TWO32
    modifies disk.handle, buffer
    ensures disk.handle.log == old(disk.handle.log) + did
    ensures r.Ok? ==> NoFailure(did)
    ensures offset >= fileSize || buffer.Length == 0 ==> r == Ok(0) && did == []
    ensures r.Err? && NoFailure(did) ==>
              offset < fileSize && HasHole(ext, offset, Min(buffer.Length, fileSize - offset))
    ensures r.Ok? ==> r.value <= buffer.Length && (r.value > 0 ==> offset + r.value <= fileSize)
    ensures r.Ok? ==> buffer[r.value..] == old(buffer[r.value..])
    ensures r.Ok? && Sound(ext, base) ==> FileHolds(ext, base, disk.handle.bytes, offset, buffer[..r.value])
    ensures buffer[ToRead(fileSize, offset, buffer.Length)..] == old(buffer[ToRead(fileSize, offset, buffer.Length)..])
    ensures Sound(ext, base) && Healthy(|disk.handle.bytes|, did)
              && WantedIsMapped(ext, base, |disk.handle.bytes|, fileSize, offset, buffer.Length)
            ==> r.Ok? && (r.value == buffer.Length || offset + r.value >= fileSize)
    ensures Sound(ext, base) && Healthy(|disk.handle.bytes|, did) ==>
              Outcome(ext, base, |disk.handle.bytes|, offset, ToRead(fileSize, offset, buffer.Length), r)
    ensures var size, n := |disk.handle.bytes|, ToRead(fileSize, offset, buffer.Length);
            && (Sound(ext, base) && Healthy(size, did) && AllMapped(ext, base, size, offset, offset + n) ==> r == Ok(n))
            && (Sound(ext, base) && Healthy(size, did) && OwnedOnDevice(ext, base, size, offset, offset + n) ==>
                  (r.Ok? <==> AllMapped(ext, base, size, offset, offset + n)))
  {
    did := [];
    ghost var size := |disk.handle.bytes|;
    if offset >= fileSize {
      EmptyOutcome(ext, base, size, offset);
      return Ok(0), did;
    }
    var remaining := fileSize - offset;
    var toRead := Min(buffer.Length, remaining);
    if toRead == 0 {
      EmptyOutcome(ext, base, size, offset);
      return Ok(0), did;
    }
    r, did := ReadChunks(disk, base, ext, offset, toRead, buffer);
    if Sound(ext, base) && Healthy(size, did) {
      OutcomeWhenMapped(ext, base, size, offset, toRead, r);
    }
  }

  // ---- Files whose map the apfs crate built ------------------------------------------------------

  /**
   A built map is sound; it owns positions on the device where the file's bytes are, and a request is
   mapped exactly when it ends inside the extents with all its bytes on the device.
   */
  lemma BuiltMapIsGood(extents: seq<FileExtent>, base: u64, size: nat, lo: nat, hi: nat)
    requires Fits(extents, 0) && Addressed(extents, base) && lo < hi
    ensures Sound(Tiling(extents, 0), base)
    ensures OwnedOnDevice(Tiling(extents, 0), base, size, lo, hi) <==> ContentOnDevice(extents, base, size, lo, hi)
    ensures AllMapped(Tiling(extents, 0), base, size, lo, hi)
       <==> hi <= Total(extents) && ContentOnDevice(extents, base, size, lo, hi)
  {
    TilingIsSound(extents, base, 0);
    forall l: nat | lo <= l < hi
      ensures Mapped(Tiling(extents, 0), base, size, l)
         <==> ContentBelow(extents, base, size, l)
    {
      MappedIffContent(extents, base, size, l);
    }
    OwnedIffContent(extents, base, size, lo, hi);
    if AllMapped(Tiling(extents, 0), base, size, lo, hi) {
      assert Mapped(Tiling(extents, 0), base, size, hi - 1);
    }
  }

  lemma MappedIffContent(extents: seq<FileExtent>, base: u64, size: nat, l: nat)
    requires Fits(extents, 0)
    ensures Mapped(Tiling(extents, 0), base, size, l) <==> ContentBelow(extents, base, size, l)
  {
    var ext := Tiling(extents, 0);
    if l < Total(extents) {
      var i := TilingCovers(extents, 0, l);
      TilingShowsContent(extents, 0, i, l);
    }
    if Mapped(ext, base, size, l) {
      var i :| 0 <= i < |ext| && Owns(ext[i], l) && base + ext[i].phys + (l - ext[i].log) < size;
      TilingShowsContent(extents, 0, i, l);
    }
  }

  lemma OwnedIffContent(extents: seq<FileExtent>, base: u64, size: nat, lo: nat, hi: nat)
    requires Fits(extents, 0)
    ensures OwnedOnDevice(Tiling(extents, 0), base, size, lo, hi) <==> ContentOnDevice(extents, base, size, lo, hi)
  {
    var ext := Tiling(extents, 0);
    if ContentOnDevice(extents, base, size, lo, hi) {
      forall i, l | 0 <= i < |ext| && lo <= l < hi && Owns(ext[i], l)
        ensures base + ext[i].phys + (l - ext[i].log) < size
      {
        TilingShowsContent(extents, 0, i, l);
        assert ContentBelow(extents, base, size, l);
      }
    }
    if OwnedOnDevice(ext, base, size, lo, hi) {
      forall l | lo <= l < hi && l < Total(extents)
        ensures ContentBelow(extents, base, size, l)
      {
        var i := TilingCovers(extents, 0, l);
        TilingShowsContent(extents, 0, i, l);
      }
    }
  }

  ghost predicate AllContentBelow(extents: seq<FileExtent>, base: u64, limit: nat, lo: nat, hi: nat) {
    forall l :: lo <= l < hi ==> ContentBelow(extents, base, limit, l)
  }

  /**
   Outcome in terms of the file: a short result stops where the file runs past the end of the device, an
   error where the file's extents end or an address is no file position.
   */
  ghost predicate ContentOutcome(extents: seq<FileExtent>, base: u64, size: nat, lo: nat, n: nat, r: Result<nat>) {
    match r
    case Ok(k) =>
      k <= n && AllContentBelow(extents, base, size, lo, lo + k) &&
      (k < n ==> !ContentBelow(extents, base, size, lo + k) && ContentBelow(extents, base, TWO63, lo + k))
    case Err => exists k: nat :: ContentStopsAt(extents, base, size, lo, n, k)
  }

  ghost predicate ContentStopsAt(extents: seq<FileExtent>, base: u64, size: nat, lo: nat, n: nat, k: nat) {
    k < n && AllContentBelow(extents, base, size, lo, lo + k) && !ContentBelow(extents, base, TWO63, lo + k)
  }

  lemma OutcomeIsContent(extents: seq<FileExtent>, base: u64, size: nat, lo: nat, n: nat, r: Result<nat>)
    requires Fits(extents, 0) && Outcome(Tiling(extents, 0), base, size, lo, n, r)
    ensures ContentOutcome(extents, base, size, lo, n, r)
  {
    forall l: nat, limit: nat
      ensures Mapped(Tiling(extents, 0), base, limit, l) <==> ContentBelow(extents, base, limit, l)
    {
      MappedIffContent(extents, base, limit, l);
    }
    if r.Err? {
      var k: nat :| StopsAt(Tiling(extents, 0), base, size, lo, n, k);
      assert ContentStopsAt(extents, base, size, lo, n, k);
    }
  }

  /** What a caller wants lies inside the extents and on the device. */
  ghost predicate WantedIsContent(extents: seq<FileExtent>, base: u64, size: nat, fileSize: u64, offset: u64,
                                  room: nat) {
    forall l :: offset <= l < fileSize && l < offset + room ==> ContentBelow(extents, base, size, l)
  }

  lemma WantedContentIsMapped(extents: seq<FileExtent>, base: u64, size: nat, fileSize: u64, offset: u64, room: nat)
    requires Fits(extents, 0) && WantedIsContent(extents, base, size, fileSize, offset, room)
    ensures WantedIsMapped(Tiling(extents, 0), base, size, fileSize, offset, room)
  {
    forall l | offset <= l < fileSize && l < offset + room
      ensures Mapped(Tiling(extents, 0), base, size, l)
    {
      MappedIffContent(extents, base, size, l);
    }
  }

  /**
   A read of a file as stat_and_extents presents it: the bytes are those a plain sequential reader
   would deliver, and on a behaving device extents and device alone decide the outcome. When the device
   holds the requested bytes, wherever the rest of the file lies, the read is complete if it ends inside
   the extents and fails if it does not.
   */
  method ReadBuiltFile(disk: DiskReader, base: u64, extents: seq<FileExtent>, fileSize: u64, buffer: array<byte>,
                       offset: u64)
    returns (r: Result<u32>, ghost did: seq<Event>)
    requires buffer.Length < TWO32
    requires Fits(extents, 0) && Addressed(extents, base)
    modifies disk.handle, buffer
    ensures disk.handle.log == old(disk.handle.log) + did
    ensures r.Ok? ==> NoFailure(did)
    ensures r.Ok? ==> r.value <= buffer.Length && (r.value > 0 ==> offset + r.value <= fileSize)
    ensures r.Ok? ==> IsContent(extents, base, disk.handle.bytes, offset, buffer[..r.value])
    ensures Healthy(|disk.handle.bytes|, did)
              && WantedIsContent(extents, base, |disk.handle.bytes|, fileSize, offset, buffer.Length)
            ==> r.Ok? && (r.value == buffer.Length || offset + r.value >= fileSize)
    ensures Healthy(|disk.handle.bytes|, did) ==>
              ContentOutcome(extents, base, |disk.handle.bytes|, offset, ToRead(fileSize, offset, buffer.Length), r)
    ensures var n := ToRead(fileSize, offset, buffer.Length);
            Healthy(|disk.handle.bytes|, did) && n > 0
              && ContentOnDevice(extents, base, |disk.handle.bytes|, offset, offset + n) ==>
            (if offset + n <= Total(extents) then r == Ok(n) else r == Err)
  {
    var ext := BuildExtentMap(extents);
    ghost var n := ToRead(fileSize, offset, buffer.Length);
    TilingIsSound(extents, base, 0);
    if n > 0 {
      BuiltMapIsGood(extents, base, |disk.handle.bytes|, offset, offset + n);
    }
    if WantedIsContent(extents, base, |disk.handle.bytes|, fileSize, offset, buffer.Length) {
      WantedContentIsMapped(extents, base, |disk.handle.bytes|, fileSize, offset, buffer.Length);
    }
    r, did := Read(disk, base, ext, fileSize, buffer, offset);
    if Healthy(|disk.handle.bytes|, did) {
      OutcomeIsContent(extents, base, |disk.handle.bytes|, offset, n, r);
    }
    if r.Ok? {
      HeldIsContent(extents, base, disk.handle.bytes, offset, buffer[..r.value]);
    }
  }
}
