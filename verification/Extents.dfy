/**
 The extent map of a file: the two first-match lookups of src/driver.rs, what they mean, and how the
 vendored apfs crate builds the map (vendor/apfs/src/lib.rs).
 */
module Extents {
  import opened Basics
  import opened Device

  datatype Extent = Extent(log: u64, phys: u64, len: u64)

  // ---- The code's lookups -------------------------------------------------------------------

  function LogicalToPhysical(ext: seq<Extent>, l: u64): Option<u64> {
    if ext == [] then None
    else if ext[0].log <= l < Add64(ext[0].log, ext[0].len) then Some(Add64(ext[0].phys, l - ext[0].log))
    else LogicalToPhysical(ext[1..], l)
  }

  function ExtentRemaining(ext: seq<Extent>, l: u64): u64 {
    if ext == [] then 0
    else if ext[0].log <= l < Add64(ext[0].log, ext[0].len) then Add64(ext[0].log, ext[0].len) - l
    else ExtentRemaining(ext[1..], l)
  }

  /** Both lookups select the same extent, so a located position always has bytes left: no branch on 0 is taken. */
  lemma {:induction false} LookupsSelectTogether(ext: seq<Extent>, l: u64)
    ensures LogicalToPhysical(ext, l).Some? <==> ExtentRemaining(ext, l) > 0
  {
    if ext != [] {
      LookupsSelectTogether(ext[1..], l);
    }
  }

  /** The extent claims the position, by the code's own comparison. */
  predicate Claims(e: Extent, l: u64) {
    e.log <= l < Add64(e.log, e.len)
  }

  /** On every map, sound or not, both lookups answer from the first extent that claims the position. */
  lemma {:induction false} FirstClaimDecides(ext: seq<Extent>, l: u64, i: nat)
    requires i < |ext| && Claims(ext[i], l) && forall k :: 0 <= k < i ==> !Claims(ext[k], l)
    ensures LogicalToPhysical(ext, l) == Some(Add64(ext[i].phys, l - ext[i].log))
    ensures ExtentRemaining(ext, l) == Add64(ext[i].log, ext[i].len) - l
    decreases |ext|
  {
    if i > 0 {
      assert !Claims(ext[0], l);
      FirstClaimDecides(ext[1..], l, i - 1);
    }
  }

  lemma {:induction false} UnclaimedIsAHole(ext: seq<Extent>, l: u64)
    requires forall k :: 0 <= k < |ext| ==> !Claims(ext[k], l)
    ensures LogicalToPhysical(ext, l) == None && ExtentRemaining(ext, l) == 0
  {
    if ext != [] {
      assert !Claims(ext[0], l);
      UnclaimedIsAHole(ext[1..], l);
    }
  }

  // ---- What an extent map means ---------------------------------------------------------------

  predicate Owns(e: Extent, l: int) {
    e.log <= l < e.log + e.len
  }

  /** Neither end of an extent overflows, and no two extents claim the same position. */
  ghost predicate Sound(ext: seq<Extent>, base: u64) {
    && (forall i :: 0 <= i < |ext| ==>
          ext[i].log + ext[i].len < TWO64 && base + ext[i].phys + ext[i].len <= TWO64)
    && (forall i, j :: 0 <= i < j < |ext| ==>
          ext[i].log + ext[i].len <= ext[j].log || ext[j].log + ext[j].len <= ext[i].log)
  }

  /** Byte l of the file is b. */
  ghost predicate ByteAt(ext: seq<Extent>, base: u64, bytes: seq<byte>, l: int, b: byte) {
    exists i :: 0 <= i < |ext| && Owns(ext[i], l) &&
      base + ext[i].phys + (l - ext[i].log) < |bytes| && bytes[base + ext[i].phys + (l - ext[i].log)] == b
  }

  /** The file holds `data` from position l on. */
  ghost predicate FileHolds(ext: seq<Extent>, base: u64, bytes: seq<byte>, l: nat, data: seq<byte>) {
    forall k {:trigger data[k]} :: 0 <= k < |data| ==> ByteAt(ext, base, bytes, l + k, data[k])
  }

  /** Under disjointness a position has one owner, and both lookups report it. */
  lemma {:induction false} LookupsFindOwner(ext: seq<Extent>, base: u64, l: u64, i: nat)
    requires Sound(ext, base) && i < |ext| && Owns(ext[i], l)
    ensures LogicalToPhysical(ext, l) == Some(ext[i].phys + (l - ext[i].log))
    ensures ExtentRemaining(ext, l) == ext[i].log + ext[i].len - l
    ensures forall j :: 0 <= j < |ext| && Owns(ext[j], l) ==> j == i
    decreases |ext|
  {
    if i > 0 {
      assert !Owns(ext[0], l);
      LookupsFindOwner(ext[1..], base, l, i - 1);
    }
  }

  lemma {:induction false} LocatedHasOwner(ext: seq<Extent>, base: u64, l: u64) returns (i: nat)
    requires Sound(ext, base) && LogicalToPhysical(ext, l).Some?
    ensures i < |ext| && Owns(ext[i], l)
  {
    if ext[0].log <= l < Add64(ext[0].log, ext[0].len) {
      i := 0;
    } else {
      i := LocatedHasOwner(ext[1..], base, l);
      i := i + 1;
    }
  }

  /** A hole is exactly a position no extent owns. */
  lemma HoleIsUnowned(ext: seq<Extent>, base: u64, l: u64)
    requires Sound(ext, base)
    ensures LogicalToPhysical(ext, l) == None <==> forall i :: 0 <= i < |ext| ==> !Owns(ext[i], l)
  {
    if LogicalToPhysical(ext, l).Some? {
      var i := LocatedHasOwner(ext, base, l);
    } else if i :| 0 <= i < |ext| && Owns(ext[i], l) {
      LookupsFindOwner(ext, base, l, i);
    }
  }

  /** Bytes taken from the device inside one extent are bytes of the file. */
  lemma ChunkIsFile(ext: seq<Extent>, base: u64, bytes: seq<byte>, i: nat, l: nat, data: seq<byte>)
    requires i < |ext| && Owns(ext[i], l) && l + |data| <= ext[i].log + ext[i].len
    requires Carries(bytes, base + ext[i].phys + (l - ext[i].log), data)
    ensures FileHolds(ext, base, bytes, l, data)
  {
    var p := base + ext[i].phys + (l - ext[i].log);
    forall k | 0 <= k < |data|
      ensures ByteAt(ext, base, bytes, l + k, data[k])
    {
      assert Owns(ext[i], l + k);
      assert p + k == base + ext[i].phys + (l + k - ext[i].log);
      assert data[k] == bytes[p..p + |data|][k] == bytes[p + k];
    }
  }

  lemma FileHoldsConcat(ext: seq<Extent>, base: u64, bytes: seq<byte>, l: nat, a: seq<byte>, b: seq<byte>)
    requires FileHolds(ext, base, bytes, l, a) && FileHolds(ext, base, bytes, l + |a|, b)
    ensures FileHolds(ext, base, bytes, l, a + b)
  {
    forall k | 0 <= k < |a + b|
      ensures ByteAt(ext, base, bytes, l + k, (a + b)[k])
    {
      if k < |a| {
        assert (a + b)[k] == a[k];
      } else {
        var j := k - |a|;
        assert (a + b)[k] == b[j];
        assert l + k == l + |a| + j;
      }
    }
  }

  // ---- How the map is built -------------------------------------------------------------------

  /** A decoded file extent: its length (56 bits) and its first byte, block number times block size. */
  datatype FileExtent = FileExtent(length: Length, start: nat)

  type Length = n: int | 0 <= n < 0x100_0000_0000_0000

  function Total(extents: seq<FileExtent>): nat {
    if extents == [] then 0 else extents[0].length + Total(extents[1..])
  }

  /** Neither the running logical offset nor a physical start overflows. */
  predicate Fits(extents: seq<FileExtent>, start: nat) {
    start + Total(extents) < TWO64 && forall i :: 0 <= i < |extents| ==> extents[i].start < TWO64
  }

  /** Extents laid end to end from `start`, zero lengths dropped. */
  function Tiling(extents: seq<FileExtent>, start: nat): seq<Extent>
    requires Fits(extents, start)
  {
    if extents == [] then []
    else
      var rest := Tiling(extents[1..], start + extents[0].length);
      if extents[0].length == 0 then rest
      else [Extent(start, extents[0].start, extents[0].length)] + rest
  }

  /** What one round of the loop appends: nothing for an empty extent. */
  function Tile(e: FileExtent, start: u64): seq<Extent> {
    if e.length == 0 then [] else [Extent(start, Wrap(e.start), e.length)]
  }

  /** What the loop builds; the running offset wraps like every u64 of a release build. */
  function Built(extents: seq<FileExtent>, start: u64): seq<Extent> {
    if extents == [] then []
    else Tile(extents[0], start) + Built(extents[1..], Add64(start, extents[0].length))
  }

  lemma BuiltStep(extents: seq<FileExtent>, i: nat, start: u64)
    requires i < |extents|
    ensures Built(extents[i..], start)
         == Tile(extents[i], start) + Built(extents[i + 1..], Add64(start, extents[i].length))
  {
    assert extents[i..][1..] == extents[i + 1..];
  }

  lemma WrapOfWord(n: u64)
    ensures Wrap(n) == n
  {
  }

  lemma FitsStep(extents: seq<FileExtent>, start: nat)
    requires extents != [] && Fits(extents, start)
    ensures extents[0].start < TWO64 && start + extents[0].length < TWO64
    ensures Fits(extents[1..], start + extents[0].length)
  {
  }

  /** Without overflow that is the tiling. */
  lemma {:induction false} BuiltIsTiling(extents: seq<FileExtent>, start: u64)
    requires Fits(extents, start)
    ensures Built(extents, start) == Tiling(extents, start)
    decreases |extents|
  {
    if extents != [] {
      FitsStep(extents, start);
      WrapOfWord(extents[0].start);
      var next := start + extents[0].length;
      BuiltIsTiling(extents[1..], next);
      assert Add64(start, extents[0].length) == next;
      var rest := Tiling(extents[1..], next);
      assert extents[0].length == 0 ==> Tile(extents[0], start) + rest == rest;
    }
  }

  /** ApfsVolume::stat_and_extents. */
  method BuildExtentMap(extents: seq<FileExtent>) returns (ext: seq<Extent>)
    ensures ext == Built(extents, 0)
    ensures Fits(extents, 0) ==> ext == Tiling(extents, 0)
  {
    ext := [];
    var logicalOffset: u64 := 0;
    assert extents[0..] == extents;
    for i := 0 to |extents|
      invariant ext + Built(extents[i..], logicalOffset) == Built(extents, 0)
    {
      BuiltStep(extents, i, logicalOffset);
      var length := extents[i].length;
      if length == 0 {
        continue;
      }
      ext := ext + [Extent(logicalOffset, Wrap(extents[i].start), length)];
      logicalOffset := Add64(logicalOffset, length);
    }
    if Fits(extents, 0) {
      BuiltIsTiling(extents, 0);
    }
  }

  /** No address on the device overflows. */
  predicate Addressed(extents: seq<FileExtent>, base: u64) {
    forall i :: 0 <= i < |extents| ==> base + extents[i].start + extents[i].length <= TWO64
  }

  /** Where a plain reader, streaming extent after extent, finds byte l of the file. */
  function ContentPosition(extents: seq<FileExtent>, l: nat): nat
    requires l < Total(extents)
  {
    if l < extents[0].length then extents[0].start + l
    else ContentPosition(extents[1..], l - extents[0].length)
  }

  /** Byte l is inside the file and lies below device position `limit`. */
  predicate ContentBelow(extents: seq<FileExtent>, base: u64, limit: nat, l: nat) {
    l < Total(extents) && base + ContentPosition(extents, l) < limit
  }

  /** Byte l of the file is b. */
  predicate IsContentByte(extents: seq<FileExtent>, base: u64, bytes: Image, l: nat, b: byte) {
    ContentBelow(extents, base, |bytes|, l) && bytes[base + ContentPosition(extents, l)] == b
  }

  /** `data` is what the plain reader delivers from byte l on. */
  ghost predicate IsContent(extents: seq<FileExtent>, base: u64, bytes: Image, l: nat, data: seq<byte>) {
    forall k {:trigger data[k]} :: 0 <= k < |data| ==> IsContentByte(extents, base, bytes, l + k, data[k])
  }

  /** Of these bytes, those inside the file are on the device. */
  ghost predicate ContentOnDevice(extents: seq<FileExtent>, base: u64, size: nat, lo: nat, hi: nat) {
    forall l :: lo <= l < hi && l < Total(extents) ==> ContentBelow(extents, base, size, l)
  }

  /** Every extent of a built map lies inside the file, and its addresses do not overflow. */
  ghost predicate Within(ext: seq<Extent>, base: u64, lo: nat, hi: nat) {
    forall i :: 0 <= i < |ext| ==>
      lo <= ext[i].log && ext[i].log + ext[i].len <= hi && base + ext[i].phys + ext[i].len <= TWO64
  }

  lemma {:induction false} TilingStaysWithin(extents: seq<FileExtent>, base: u64, start: nat)
    requires Fits(extents, start) && Addressed(extents, base)
    ensures Within(Tiling(extents, start), base, start, start + Total(extents))
    decreases |extents|
  {
    if extents != [] {
      TilingStaysWithin(extents[1..], base, start + extents[0].length);
    }
  }

  /** A built map is sound. */
  lemma {:induction false} TilingIsSound(extents: seq<FileExtent>, base: u64, start: nat)
    requires Fits(extents, start) && Addressed(extents, base)
    ensures Sound(Tiling(extents, start), base)
    decreases |extents|
  {
    if extents != [] {
      TilingStaysWithin(extents[1..], base, start + extents[0].length);
      TilingIsSound(extents[1..], base, start + extents[0].length);
    }
  }

  /** A built map has no hole below the total length. */
  lemma {:induction false} TilingCovers(extents: seq<FileExtent>, start: nat, l: nat) returns (i: nat)
    requires Fits(extents, start) && start <= l < start + Total(extents)
    ensures i < |Tiling(extents, start)| && Owns(Tiling(extents, start)[i], l)
    decreases |extents|
  {
    if l < start + extents[0].length {
      i := 0;
    } else {
      i := TilingCovers(extents[1..], start + extents[0].length, l);
      if extents[0].length > 0 {
        i := i + 1;
      }
    }
  }

  /** Through a built map, byte l of the file lies where the plain reader finds it. */
  lemma {:induction false} TilingShowsContent(extents: seq<FileExtent>, start: nat, i: nat, l: nat)
    requires Fits(extents, start) && i < |Tiling(extents, start)| && Owns(Tiling(extents, start)[i], l)
    ensures start <= l < start + Total(extents)
    ensures var e := Tiling(extents, start)[i]; e.phys + (l - e.log) == ContentPosition(extents, l - start)
    decreases |extents|
  {
    if extents[0].length == 0 || i > 0 {
      var next := start + extents[0].length;
      var j := if extents[0].length > 0 then i - 1 else i;
      assert Tiling(extents, start)[i] == Tiling(extents[1..], next)[j];
      TilingShowsContent(extents[1..], next, j, l);
    }
  }

  /** What the file holds through a built map is what the plain reader delivers. */
  lemma HeldIsContent(extents: seq<FileExtent>, base: u64, bytes: Image, l: nat, data: seq<byte>)
    requires Fits(extents, 0) && FileHolds(Tiling(extents, 0), base, bytes, l, data)
    ensures IsContent(extents, base, bytes, l, data)
  {
    var ext := Tiling(extents, 0);
    forall k | 0 <= k < |data|
      ensures IsContentByte(extents, base, bytes, l + k, data[k])
    {
      assert ByteAt(ext, base, bytes, l + k, data[k]);
      var i :| 0 <= i < |ext| && Owns(ext[i], l + k) &&
        base + ext[i].phys + (l + k - ext[i].log) < |bytes| &&
        bytes[base + ext[i].phys + (l + k - ext[i].log)] == data[k];
      TilingShowsContent(extents, 0, i, l + k);
    }
  }
}
