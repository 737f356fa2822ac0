/** The virtual disk: what one `read` or `seek` does to the cursor, and the flat byte sequence it must agree with. */
module VirtualDisk {
  import opened Prelude
  import opened MapTable
  import opened Resolution
  import opened ChunkStore

  /** What opening reads from the container: the stream's store and size, and the map streams if there is a map. */
  datatype MapStream = MapStream(data: seq<Byte>, targets: seq<TargetKind>, gapIsFF: bool, size: u64)

  datatype Container = Container(store: Store, imageStreamSize: u64, mapped: Option<MapStream>)

  /** The reader's constant part. */
  datatype Image = Image(store: Store, virtualSize: u64, imageStreamSize: u64, loadedMap: Option<LoadedMap>)

  function Open(c: Container): Image {
    match c.mapped
    case None => Image(c.store, c.imageStreamSize, c.imageStreamSize, None)
    case Some(ms) => Image(c.store, ms.size, c.imageStreamSize, Some(Load(ms.data, ms.targets, ms.gapIsFF)))
  }

  function Lookup(im: Image, pos: u64): Region {
    match im.loadedMap
    case Some(m) => Resolve(m, pos, im.virtualSize)
    case None => Region(ImageStream, pos, TWO_64 - 1)
  }

  function TileBytes(tile: Tile, from: u64, n: u64): (s: seq<Byte>)
    ensures |s| == n && forall i: u64 :: i < n ==> s[i] == tile.ByteAt(Wrap64(from + i))
  {
    seq<Byte>(n, i requires 0 <= i < n => tile.ByteAt(Wrap64(from + i)))
  }

  /** The bytes one `read` call delivers into a buffer of `len` bytes. */
  function ReadBytes(im: Image, pos: u64, len: nat): (r: Result<seq<Byte>, Error>)
    ensures r.Ok? ==> |r.value| <= len && (pos + |r.value| <= im.virtualSize || r.value == [])
  {
    if len == 0 || pos >= im.virtualSize then Ok([])
    else
      var toRead := Min(len, im.virtualSize - pos);
      var r := Lookup(im, pos);
      match r.kind
      case Unrecognised => Ok(Prelude.Fill(Min(toRead, r.bytesInRegion), 0))
      case Filled(b) => Ok(Prelude.Fill(Min(toRead, r.bytesInRegion), b))
      case Tiled(tile) =>
        Ok(TileBytes(tile, r.targetOffset, Min(toRead, r.bytesInRegion)))
      case ImageStream =>
        match ReadChunk(im.store, PieceOf(r.targetOffset, im.store.chunkSize))
        case Err(e) => Err(e)
        case Ok(chunk) =>
          var o := Within(r.targetOffset, im.store.chunkSize);
          var n := Min(toRead, Min(Max(|chunk| - o, 0), r.bytesInRegion));
          if n == 0 then Ok([]) else Ok(chunk[o..o + n])
  }

  // ---- the flat disk ----

  function TargetByte(st: Store, kind: TargetKind, t: nat): Byte {
    match kind
    case Unrecognised => 0
    case Filled(b) => b
    case Tiled(tile) => tile.ByteAt(t)
    case ImageStream => if t < TWO_64 then StreamByte(st, t) else 0
  }

  /** Byte `p` of the disk, by scanning the raw map table and looking up one stream byte. */
  function DiskByte(c: Container, p: u64): Byte {
    match c.mapped
    case None => StreamByte(c.store, p)
    case Some(ms) =>
      match Scan(DecodeTable(ms.data), p)
      case Some(e) =>
        if Covers(e, p) then
          TargetByte(c.store, if e.targetId < |ms.targets| then ms.targets[e.targetId] else Unrecognised,
                     e.targetOffset + (p - e.mapOffset))
        else if ms.gapIsFF then 0xFF else 0
      case None => if ms.gapIsFF then 0xFF else 0
  }

  function DiskBytes(c: Container, from: nat, to: nat): (s: seq<Byte>)
    requires from <= to <= TWO_64
    ensures |s| == to - from
  {
    seq<Byte>(to - from, k requires 0 <= k < to - from => DiskByte(c, from + k))
  }

  /** Map targets in the image stream stay inside it. */
  ghost predicate TargetsInside(m: LoadedMap, imageStreamSize: u64) {
    forall i :: 0 <= i < |m.entries| && KindOf(m, m.entries[i]) == ImageStream ==>
      m.entries[i].targetOffset + m.entries[i].length <= imageStreamSize
  }

  /** Map and target ends fit in 64 bits. */
  ghost predicate EntriesFit(m: LoadedMap) {
    && EndsFit(m.entries)
    && forall i :: 0 <= i < |m.entries| && KindOf(m, m.entries[i]) == ImageStream ==>
         m.entries[i].targetOffset + m.entries[i].length <= TWO_64
  }

  /** No lookup and no target wraps; a direct image has neither. */
  ghost predicate NothingWraps(c: Container) {
    c.mapped.Some? ==> EntriesFit(Open(c).loadedMap.value)
  }

  ghost predicate MapFits(m: LoadedMap, imageStreamSize: u64) {
    Sorted(m.entries) && EndsFit(m.entries) && TargetsInside(m, imageStreamSize)
  }

  ghost predicate MapWellFormed(m: LoadedMap, virtualSize: u64, imageStreamSize: u64) {
    MapFits(m, imageStreamSize) && Seamless(m, virtualSize)
  }

  /** What the reader relies on: chunks that decode to their share of the stream and, for a mapped image, entry ends
      that fit in 64 bits, no conflicting overlaps, and stream targets inside the stream. */
  ghost predicate WellFormed(c: Container) {
    WellChunked(c.store, c.imageStreamSize) && MapOk(c)
  }

  /** The same without asking anything about overlaps. */
  ghost predicate Fits(c: Container) {
    && WellChunked(c.store, c.imageStreamSize)
    && (c.mapped.Some? ==> MapFits(Open(c).loadedMap.value, c.imageStreamSize))
  }

  ghost predicate MapOk(c: Container) {
    c.mapped.Some? ==> MapWellFormed(Open(c).loadedMap.value, c.mapped.value.size, c.imageStreamSize)
  }

  /** Conditions on the raw table that suffice: no two entries overlap, ends fit in 64 bits, targets in the image
      stream stay inside it. */
  ghost predicate TableOk(ms: MapStream, imageStreamSize: u64) {
    var table := DecodeTable(ms.data);
    && TableDisjoint(table)
    && forall e :: e in table ==>
         && e.mapOffset + e.length < TWO_64
         && (e.targetId < |ms.targets| && ms.targets[e.targetId] == ImageStream ==>
              e.targetOffset + e.length <= imageStreamSize)
  }

  lemma TableOkSuffices(c: Container)
    requires c.mapped.Some? && TableOk(c.mapped.value, c.imageStreamSize)
    ensures MapOk(c)
  {
    hide DecodeTable, SortedEntries, TableDisjoint, Seamless, Sorted, AllNonEmpty, NoOverlap;
    var ms := c.mapped.value;
    LoadedShape(ms.data);
    DisjointTableIsSeamless(ms.data, ms.targets, ms.gapIsFF, ms.size);
    var es := SortedEntries(ms.data);
    assert forall i :: 0 <= i < |es| ==> es[i] in es;
  }

  // ---- one read ----

  lemma WholeTiles(x: nat, k: nat, d: nat)
    requires d > 0
    ensures Within(x + PieceStart(k, d), d) == Within(x, d)
  {
    hide PieceOf, Within;
    var i := PieceOf(x, d);
    PieceLocate(x, d);
    assert PieceStart(i + k, d) == PieceStart(i, d) + PieceStart(k, d);
    PieceUnique(x + PieceStart(k, d), d, i + k, Within(x, d));
  }

  /** The tile pattern does not notice a 64-bit wrap. */
  lemma TileWraps(tile: Tile, a: u64, k: u64)
    ensures tile.ByteAt(Wrap64(a + k)) == tile.ByteAt(a + k)
  {
    hide Within;
    if a + k >= TWO_64 {
      WholeTiles(a + k - TWO_64, 0x1000_0000_0000, TILE_SIZE);
      assert PieceStart(0x1000_0000_0000, TILE_SIZE) == TWO_64;
    }
  }

  lemma ScannedIsLoaded(table: seq<MapEntry>, p: u64) returns (i: nat)
    requires Scan(table, p).Some?
    ensures var es := StableSort(NonEmpty(table)); i < |es| && es[i] == Scan(table, p).value
  {
    hide PartitionPoint, Scan, StableSort;
    PickIsScan(table, p);
    var es := StableSort(NonEmpty(table));
    i := PartitionPoint(es, p, 0, |es|) - 1;
  }

  /** At a single position the lookup already names the disk's byte. */
  lemma LookupNamesByte(c: Container, p: u64)
    requires NothingWraps(c)
    ensures var r := Lookup(Open(c), p);
            DiskByte(c, p) == TargetByte(c.store, r.kind, r.targetOffset)
  {
    hide Resolve, Inside, Scan, StreamByte, StableSort, Tile.ByteAt, Seamless, Sorted;
    if c.mapped.Some? {
      var ms := c.mapped.value;
      var m := Open(c).loadedMap.value;
      ResolveReadsTable(ms.data, ms.targets, ms.gapIsFF, p, ms.size);
      if Scan(DecodeTable(ms.data), p).Some? {
        var i := ScannedIsLoaded(DecodeTable(ms.data), p);
        var e := m.entries[i];
        assert e.mapOffset + e.length < TWO_64;
        assert KindOf(m, e) == ImageStream ==> e.targetOffset + e.length <= TWO_64;
        if Covers(e, p) && KindOf(m, e).Tiled? {
          TileWraps(KindOf(m, e).tile, e.targetOffset, p - e.mapOffset);
        }
      }
    }
  }

  /** A region over the image stream stays inside it. */
  lemma StreamRegion(m: LoadedMap, virtualSize: u64, imageStreamSize: u64, p: u64)
    requires MapFits(m, imageStreamSize) && m.gapDefault.Filled?
    ensures var r := Resolve(m, p, virtualSize);
            r.kind == ImageStream ==> r.targetOffset + r.bytesInRegion <= imageStreamSize && Inside(m, p).Some?
    ensures var r := Resolve(m, p, virtualSize);
            Inside(m, p).None? ==> r.kind == m.gapDefault && r.targetOffset == 0
  {
    hide PartitionPoint;
    var idx := PartitionPoint(m.entries, p, 0, |m.entries|);
    if Inside(m, p).Some? {
      var e := m.entries[idx - 1];
      assert e.mapOffset + e.length < TWO_64;
      assert KindOf(m, e) == ImageStream ==> e.targetOffset + e.length <= imageStreamSize;
    }
  }

  function RegionByte(st: Store, r: Region, k: u64): Byte {
    match r.kind
    case Tiled(tile) => tile.ByteAt(Wrap64(r.targetOffset + k))
    case _ => TargetByte(st, r.kind, r.targetOffset + k)
  }

  lemma MapCoherent(m: LoadedMap, virtualSize: u64, imageStreamSize: u64, p: u64, k: u64)
    requires MapWellFormed(m, virtualSize, imageStreamSize)
    requires p + k < virtualSize && k < Resolve(m, p, virtualSize).bytesInRegion
    ensures Resolve(m, p + k, virtualSize) == Advance(m, p, Resolve(m, p, virtualSize), k)
  {
    hide Resolve, Advance;
    SeamlessIsCoherentAt(m, virtualSize, p, k);
  }

  /** Inside the region the lookup reports, the disk is the target read onwards. */
  lemma RegionNamesBytes(c: Container, p: u64, k: u64)
    requires MapOk(c) && p + k < Open(c).virtualSize && k < Lookup(Open(c), p).bytesInRegion
    ensures var r := Lookup(Open(c), p);
            (r.kind == ImageStream ==> r.targetOffset + k < c.imageStreamSize)
            && DiskByte(c, p + k) == RegionByte(c.store, r, k)
  {
    hide Resolve, Inside, SortedEntries, Seamless, DiskByte, StreamByte, Tile.ByteAt;
    LookupNamesByte(c, p + k);
    if c.mapped.Some? {
      var m := Open(c).loadedMap.value;
      var vs := c.mapped.value.size;
      MapCoherent(m, vs, c.imageStreamSize, p, k);
      StreamRegion(m, vs, c.imageStreamSize, p);
    }
  }

  /** No region is empty, on any image: an entry whose end wraps is never the one a position falls in. */
  lemma RegionNotEmpty(im: Image, p: u64)
    ensures Lookup(im, p).bytesInRegion > 0
  {
    hide PartitionPoint;
  }

  /** A read that may go ahead finds at least one byte. */
  lemma ReadFindsBytes(c: Container, pos: u64, len: nat)
    requires WellFormed(c) && len > 0 && pos < Open(c).virtualSize
    ensures var r := ReadBytes(Open(c), pos, len);
            && r.Ok? && 1 <= |r.value| <= Min(len, Open(c).virtualSize - pos)
            && |r.value| <= Lookup(Open(c), pos).bytesInRegion
  {
    hide PieceOf, Within, ReadChunk, DiskByte, StreamByte, Lookup;
    RegionNotEmpty(Open(c), pos);
    RegionNamesBytes(c, pos, 0);
    var r := Lookup(Open(c), pos);
    if r.kind == ImageStream {
      StreamInChunk(c.store, c.imageStreamSize, r.targetOffset, 0);
    }
  }

  lemma ReadByteIsDisk(c: Container, pos: u64, len: nat, k: nat)
    requires WellFormed(c) && len > 0 && pos < Open(c).virtualSize
    requires var r := ReadBytes(Open(c), pos, len); r.Ok? && k < |r.value| && k < Lookup(Open(c), pos).bytesInRegion
    ensures ReadBytes(Open(c), pos, len).value[k] == DiskByte(c, pos + k)
  {
    hide PieceOf, Within, ReadChunk, DiskByte, StreamByte, Lookup;
    RegionNamesBytes(c, pos, k);
    var r := Lookup(Open(c), pos);
    if r.kind == ImageStream {
      StreamInChunk(c.store, c.imageStreamSize, r.targetOffset, k);
    }
  }

  /** One read delivers a non-empty piece of the flat disk, starting at the cursor. */
  lemma ReadRefinesDisk(c: Container, pos: u64, len: nat)
    requires WellFormed(c) && len > 0 && pos < Open(c).virtualSize
    ensures var r := ReadBytes(Open(c), pos, len);
            && r.Ok? && 1 <= |r.value| <= Min(len, Open(c).virtualSize - pos)
            && r.value == DiskBytes(c, pos, pos + |r.value|)
  {
    hide DiskByte, ReadBytes, Lookup;
    ReadFindsBytes(c, pos, len);
    var bytes := ReadBytes(Open(c), pos, len).value;
    forall k | 0 <= k < |bytes|
      ensures bytes[k] == DiskByte(c, pos + k)
    {
      ReadByteIsDisk(c, pos, len, k);
    }
  }

  /** Overlaps or not and whatever the chunks, the first byte a read delivers is the disk's. */
  lemma FirstByteIsDisk(c: Container, pos: u64, len: nat)
    requires NothingWraps(c) && len > 0 && pos < Open(c).virtualSize
    ensures var r := ReadBytes(Open(c), pos, len);
            r.Ok? && r.value != [] ==> r.value[0] == DiskByte(c, pos)
  {
    hide PieceOf, Within, ReadChunk, DiskByte, Lookup, EntriesFit, SortedEntries;
    RegionNotEmpty(Open(c), pos);
    LookupNamesByte(c, pos);
  }

  /** With chunks that hold their share there always is one, so reading byte by byte gives the disk. */
  lemma FittingReadFinds(c: Container, pos: u64, len: nat)
    requires Fits(c) && len > 0 && pos < Open(c).virtualSize
    ensures var r := ReadBytes(Open(c), pos, len);
            r.Ok? && 1 <= |r.value| && r.value[0] == DiskByte(c, pos)
  {
    hide PieceOf, Within, ReadChunk, DiskByte, StreamByte, Lookup, SortedEntries;
    FirstByteIsDisk(c, pos, len);
    RegionNotEmpty(Open(c), pos);
    var r := Lookup(Open(c), pos);
    if r.kind == ImageStream {
      StreamTargetInside(c, pos);
      StreamInChunk(c.store, c.imageStreamSize, r.targetOffset, 0);
    }
  }

  lemma StreamTargetInside(c: Container, p: u64)
    requires c.mapped.Some? ==> MapFits(Open(c).loadedMap.value, c.imageStreamSize)
    requires p < Open(c).virtualSize && Lookup(Open(c), p).kind == ImageStream
    ensures Lookup(Open(c), p).targetOffset < c.imageStreamSize
  {
    hide Resolve, Inside, SortedEntries, MapFits;
    RegionNotEmpty(Open(c), p);
    if c.mapped.Some? {
      StreamRegion(Open(c).loadedMap.value, c.mapped.value.size, c.imageStreamSize, p);
    }
  }
}
