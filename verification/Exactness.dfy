/** When exactly reads succeed, and when exactly they agree with the flat disk, without assuming well-formedness. */
module Exactness {
  import opened Prelude
  import opened MapTable
  import opened Resolution
  import opened ChunkStore
  import opened VirtualDisk

  // ---- when a read can come up short ----

  /** A one-byte read at `t` finds its byte. */
  predicate FindsByte(im: Image, t: u64) {
    var r := ReadBytes(im, t, 1);
    r.Ok? && r.value != []
  }

  /** The chunk holding stream position `t` can be read and reaches that far. */
  predicate StreamHas(st: Store, t: u64) {
    var r := ReadChunk(st, PieceOf(t, st.chunkSize));
    r.Ok? && Within(t, st.chunkSize) < |r.value|
  }

  /** On any image, at any cursor, with any buffer: when a read succeeds with nothing, when it fails and with what
      error. It is empty with an empty buffer, at or past the end of the disk, and over the stream where the chunk
      ends too early; it fails over the stream where the chunk cannot be read; never elsewhere. */
  lemma ShortReadIff(im: Image, t: u64, len: nat)
    ensures var r := Lookup(im, t);
            var chunk := ReadChunk(im.store, PieceOf(r.targetOffset, im.store.chunkSize));
            && (ReadBytes(im, t, len).Err? <==> len > 0 && t < im.virtualSize && r.kind == ImageStream && chunk.Err?)
            && (ReadBytes(im, t, len).Err? ==> ReadBytes(im, t, len) == Err(chunk.error))
            && (ReadBytes(im, t, len) == Ok([]) <==>
                  || len == 0 || t >= im.virtualSize
                  || (r.kind == ImageStream && chunk.Ok?
                      && |chunk.value| <= Within(r.targetOffset, im.store.chunkSize)))
            && (FindsByte(im, t) <==>
                  t < im.virtualSize && (r.kind == ImageStream ==> StreamHas(im.store, r.targetOffset)))
  {
    hide PieceOf, Within, ReadChunk, Lookup;
    RegionNotEmpty(im, t);
  }

  /** Chunk `i` can be read and holds its share of the stream's first `total` bytes (it may hold more). */
  predicate ChunkCovers(st: Store, total: nat, i: u64) {
    match ReadChunk(st, i)
    case Err(_) => false
    case Ok(c) => |c| >= Min(st.chunkSize, total - PieceStart(i, st.chunkSize))
  }

  /** The chunks under positions `from` to `to` of the stream cover their shares of it. */
  ghost predicate StretchCovered(st: Store, from: nat, to: nat) {
    forall j: u64 :: PieceOf(from, st.chunkSize) <= j < Pieces(to, st.chunkSize) ==> ChunkCovers(st, to, j)
  }

  /** All positions of a stretch of the stream are there exactly when the chunks under it cover their shares. */
  lemma StretchIff(st: Store, from: nat, to: nat)
    requires from < to <= TWO_64
    ensures (forall t: u64 :: from <= t < to ==> StreamHas(st, t)) <==> StretchCovered(st, from, to)
  {
    hide PieceOf, Within, PieceStart, Pieces, ReadChunk;
    var cs := st.chunkSize;
    if forall t: u64 :: from <= t < to ==> StreamHas(st, t) {
      forall j: u64 | PieceOf(from, cs) <= j < Pieces(to, cs)
        ensures ChunkCovers(st, to, j)
      {
        PieceCount(to, cs, j);
        var share := Min(cs, to - PieceStart(j, cs));
        var last := PieceStart(j, cs) + share - 1;
        PieceUnique(last, cs, j, share - 1);
        PieceLocate(from, cs);
        PieceOrder(PieceOf(from, cs), j, cs);
        assert StreamHas(st, last);
      }
    }
    if StretchCovered(st, from, to) {
      forall t: u64 | from <= t < to
        ensures StreamHas(st, t)
      {
        PieceMonotone(from, t, cs);
        PieceLocate(t, cs);
        PieceCount(to, cs, PieceOf(t, cs));
        assert ChunkCovers(st, to, PieceOf(t, cs));
      }
    }
  }

  /** Where entry `i` stops answering: its own end, the next entry's start or the end of the disk. */
  function ServedEnd(m: LoadedMap, virtualSize: u64, i: nat): nat
    requires i < |m.entries|
  {
    var own := Min(virtualSize, m.entries[i].mapOffset + m.entries[i].length);
    if i + 1 < |m.entries| then Min(own, m.entries[i + 1].mapOffset) else own
  }

  /** Entry `i` answers for some positions of the disk. */
  predicate Serves(m: LoadedMap, virtualSize: u64, i: nat) {
    Pickable(m.entries, i) && m.entries[i].mapOffset < ServedEnd(m, virtualSize, i)
  }

  /** The chunks under the part of the stream that entry `i` serves cover their shares of it. */
  ghost predicate EntryCovered(im: Image, m: LoadedMap, i: nat)
    requires Serves(m, im.virtualSize, i)
  {
    var e := m.entries[i];
    StretchCovered(im.store, e.targetOffset, e.targetOffset + (ServedEnd(m, im.virtualSize, i) - e.mapOffset))
  }

  /** Every chunk the disk needs can be read and holds what the disk needs of it. */
  ghost predicate Covered(im: Image) {
    match im.loadedMap
    case None =>
      forall j: u64 :: j < Pieces(im.virtualSize, im.store.chunkSize) ==> ChunkCovers(im.store, im.virtualSize, j)
    case Some(m) =>
      forall i: nat :: Serves(m, im.virtualSize, i) && KindOf(m, m.entries[i]) == ImageStream ==> EntryCovered(im, m, i)
  }

  lemma ServedLookup(m: LoadedMap, virtualSize: u64, i: nat, p: u64)
    requires Sorted(m.entries) && EndsFit(m.entries)
    requires Serves(m, virtualSize, i) && m.entries[i].mapOffset <= p < ServedEnd(m, virtualSize, i)
    ensures var e := m.entries[i];
            && Inside(m, p) == Some(e)
            && Resolve(m, p, virtualSize)
               == Region(KindOf(m, e), Wrap64(e.targetOffset + (p - e.mapOffset)), e.length - (p - e.mapOffset))
  {
    hide PartitionPoint, KindOf;
    assert m.entries[i].mapOffset + m.entries[i].length < TWO_64;
    PartitionPointIs(m.entries, p, i + 1);
  }

  lemma ServingEntry(m: LoadedMap, virtualSize: u64, p: u64) returns (i: nat)
    requires Sorted(m.entries) && EndsFit(m.entries) && p < virtualSize && Inside(m, p).Some?
    ensures Serves(m, virtualSize, i) && m.entries[i].mapOffset <= p < ServedEnd(m, virtualSize, i)
  {
    hide PartitionPoint;
    i := PartitionPoint(m.entries, p, 0, |m.entries|) - 1;
    assert m.entries[i].mapOffset + m.entries[i].length < TWO_64;
  }

  lemma EntryCoveredIff(im: Image, m: LoadedMap, i: nat)
    requires im.loadedMap == Some(m) && Sorted(m.entries) && EntriesFit(m)
    requires Serves(m, im.virtualSize, i) && KindOf(m, m.entries[i]) == ImageStream
    ensures EntryCovered(im, m, i) <==>
            forall p: u64 :: m.entries[i].mapOffset <= p < ServedEnd(m, im.virtualSize, i) ==> FindsByte(im, p)
  {
    hide StretchCovered, ReadChunk, Resolve, FindsByte, StreamHas;
    var e := m.entries[i];
    var end := ServedEnd(m, im.virtualSize, i);
    var to := e.targetOffset + (end - e.mapOffset);
    StretchIff(im.store, e.targetOffset, to);
    forall p: u64 | e.mapOffset <= p < end
      ensures FindsByte(im, p) <==> StreamHas(im.store, e.targetOffset + (p - e.mapOffset))
    {
      ServedLookup(m, im.virtualSize, i, p);
      ShortReadIff(im, p, 1);
    }
    if forall p: u64 :: e.mapOffset <= p < end ==> FindsByte(im, p) {
      forall t: u64 | e.targetOffset <= t < to
        ensures StreamHas(im.store, t)
      {
        var p := e.mapOffset + (t - e.targetOffset);
        assert FindsByte(im, p);
      }
    }
    if EntryCovered(im, m, i) {
      forall p: u64 | e.mapOffset <= p < end
        ensures FindsByte(im, p)
      {
        assert StreamHas(im.store, e.targetOffset + (p - e.mapOffset));
      }
    }
  }

  lemma DirectCoveredIff(im: Image)
    requires im.loadedMap.None?
    ensures Covered(im) <==> forall t: u64 :: t < im.virtualSize ==> FindsByte(im, t)
  {
    hide PieceOf, Within, PieceStart, Pieces, ReadChunk, FindsByte, StreamHas;
    PieceCount(0, im.store.chunkSize, 0);
    forall t: u64 | t < im.virtualSize
      ensures FindsByte(im, t) <==> StreamHas(im.store, t)
    {
      ShortReadIff(im, t, 1);
    }
    if im.virtualSize > 0 {
      StretchIff(im.store, 0, im.virtualSize);
      FirstPiece(im.store.chunkSize);
    } else {
      NoPieces(im.store.chunkSize);
    }
  }

  lemma FirstPiece(d: nat)
    requires d > 0
    ensures PieceOf(0, d) == 0
  {
  }

  lemma NoPieces(d: nat)
    requires d > 0
    ensures Pieces(0, d) == 0
  {
    hide Pieces, PieceStart;
    PieceCount(0, d, 0);
  }

  /** No read inside the disk fails or comes back empty exactly when every chunk the disk needs covers what is needed of
      it: for a direct image its share of the stream, for a mapped one its share of what each entry serves. */
  lemma NoShortReadIff(c: Container)
    requires NothingWraps(c)
    ensures (forall t: u64 :: t < Open(c).virtualSize ==> FindsByte(Open(c), t)) <==> Covered(Open(c))
  {
    hide FindsByte, Resolve, EntryCovered, SortedEntries;
    var im := Open(c);
    if c.mapped.None? {
      DirectCoveredIff(im);
    } else {
      LoadedShape(c.mapped.value.data);
      MappedCoveredIff(im, im.loadedMap.value);
    }
  }

  lemma MappedCoveredIff(im: Image, m: LoadedMap)
    requires im.loadedMap == Some(m) && Sorted(m.entries) && EntriesFit(m) && m.gapDefault.Filled?
    ensures (forall t: u64 :: t < im.virtualSize ==> FindsByte(im, t)) <==> Covered(im)
  {
    hide FindsByte, EntryCovered, KindOf, StreamHas, PartitionPoint, ReadChunk;
    var vs := im.virtualSize;
    if forall t: u64 :: t < vs ==> FindsByte(im, t) {
      forall i: nat | Serves(m, vs, i) && KindOf(m, m.entries[i]) == ImageStream
        ensures EntryCovered(im, m, i)
      {
        EntryCoveredIff(im, m, i);
      }
    }
    if Covered(im) {
      forall t: u64 | t < vs
        ensures FindsByte(im, t)
      {
        ShortReadIff(im, t, 1);
        if Inside(m, t).Some? {
          var i := ServingEntry(m, vs, t);
          ServedLookup(m, vs, i, t);
          if KindOf(m, m.entries[i]) == ImageStream {
            EntryCoveredIff(im, m, i);
          }
        }
      }
    }
  }

  // ---- when reads agree with the flat disk ----

  /** A read delivers a non-empty piece of the flat disk. */
  ghost predicate ReadAgrees(c: Container, pos: u64, len: nat) {
    var r := ReadBytes(Open(c), pos, len);
    r.Ok? && r.value != [] && r.value == DiskBytes(c, pos, pos + |r.value|)
  }

  /** Every non-empty read inside the disk does. */
  ghost predicate ReadsAgree(c: Container) {
    forall pos: u64, len: nat {:trigger ReadAgrees(c, pos, len)} ::
      pos < Open(c).virtualSize && len > 0 ==> ReadAgrees(c, pos, len)
  }

  /** Well-formed containers are of this kind. */
  lemma WellFormedReadsAgree(c: Container)
    requires WellFormed(c)
    ensures ReadsAgree(c)
  {
    hide ReadBytes, DiskByte, WellFormed, Open;
    forall pos: u64, len: nat | pos < Open(c).virtualSize && len > 0
      ensures ReadAgrees(c, pos, len)
    {
      ReadRefinesDisk(c, pos, len);
    }
  }

  lemma AgreeingRead(c: Container, pos: u64, len: nat)
    requires ReadsAgree(c) && len > 0 && pos < Open(c).virtualSize
    ensures var r := ReadBytes(Open(c), pos, len);
            && r.Ok? && 1 <= |r.value| <= Min(len, Open(c).virtualSize - pos)
            && r.value == DiskBytes(c, pos, pos + |r.value|)
  {
    hide ReadBytes, DiskByte, Open;
    assert ReadAgrees(c, pos, len);
  }

  lemma AgreeingReadsFind(c: Container)
    requires ReadsAgree(c)
    ensures forall t: u64 :: t < Open(c).virtualSize ==> FindsByte(Open(c), t)
  {
    hide ReadBytes, Open;
    forall t: u64 | t < Open(c).virtualSize
      ensures FindsByte(Open(c), t)
    {
      assert ReadAgrees(c, t, 1);
    }
  }

  /** A read delivers something, and each of its bytes is what a one-byte read at its position gives. */
  ghost predicate SplitAgrees(c: Container, pos: u64, len: nat) {
    var r := ReadBytes(Open(c), pos, len);
    && r.Ok? && r.value != []
    && forall k :: 0 <= k < |r.value| ==> ReadBytes(Open(c), pos + k, 1) == Ok([r.value[k]])
  }

  ghost predicate NoSplitShows(c: Container) {
    forall pos: u64, len: nat {:trigger SplitAgrees(c, pos, len)} ::
      pos < Open(c).virtualSize && len > 0 ==> SplitAgrees(c, pos, len)
  }

  lemma OneByteRead(c: Container, p: u64)
    requires NothingWraps(c) && p < Open(c).virtualSize && FindsByte(Open(c), p)
    ensures ReadBytes(Open(c), p, 1) == Ok([DiskByte(c, p)])
  {
    hide DiskByte, ReadBytes, NothingWraps, Open;
    FirstByteIsDisk(c, p, 1);
    var bytes := ReadBytes(Open(c), p, 1).value;
    assert bytes == [bytes[0]];
  }

  lemma SplitAgreesIff(c: Container, pos: u64, len: nat)
    requires NothingWraps(c) && pos < Open(c).virtualSize && len > 0
    requires forall p: u64 :: p < Open(c).virtualSize ==> FindsByte(Open(c), p)
    ensures SplitAgrees(c, pos, len) <==> ReadAgrees(c, pos, len)
  {
    hide DiskByte, ReadBytes, NothingWraps, Open, FindsByte;
    if ReadBytes(Open(c), pos, len).Ok? {
      var bytes := ReadBytes(Open(c), pos, len).value;
      var slice := DiskBytes(c, pos, pos + |bytes|);
      forall k | 0 <= k < |bytes|
        ensures ReadBytes(Open(c), pos + k, 1) == Ok([bytes[k]]) <==> bytes[k] == slice[k]
      {
        OneByteRead(c, pos + k);
        assert slice[k] == DiskByte(c, pos + k);
        assert [bytes[k]][0] == bytes[k] && [slice[k]][0] == slice[k];
      }
    }
  }

  /** How reads are split never shows exactly when all of them agree with the flat disk. */
  lemma SplitsShowIff(c: Container)
    requires NothingWraps(c)
    ensures NoSplitShows(c) <==> ReadsAgree(c)
  {
    hide ReadAgrees, NothingWraps, Open, ReadBytes;
    if ReadsAgree(c) {
      AgreeingReadsFind(c);
    }
    if NoSplitShows(c) {
      forall t: u64 | t < Open(c).virtualSize
        ensures FindsByte(Open(c), t)
      {
        assert SplitAgrees(c, t, 1);
      }
    }
    if ReadsAgree(c) || NoSplitShows(c) {
      forall pos: u64, len: nat | pos < Open(c).virtualSize && len > 0
        ensures SplitAgrees(c, pos, len) <==> ReadAgrees(c, pos, len)
      {
        SplitAgreesIff(c, pos, len);
      }
    }
  }

  /** What a chunk holds beyond the chunk size, if anything, repeats the stream at its position. */
  ghost predicate SurplusAgrees(st: Store, total: u64, i: u64) {
    match ReadChunk(st, i)
    case Err(_) => true
    case Ok(c) =>
      forall k: nat :: st.chunkSize <= k < |c| && PieceStart(i, st.chunkSize) + k < total ==>
        c[k] == StreamByte(st, PieceStart(i, st.chunkSize) + k)
  }

  lemma DirectRead(c: Container, pos: u64, len: nat)
    requires c.mapped.None? && pos < c.imageStreamSize && len > 0 && StreamHas(c.store, pos)
    ensures var chunk, o := ReadChunk(c.store, PieceOf(pos, c.store.chunkSize)).value, Within(pos, c.store.chunkSize);
            ReadBytes(Open(c), pos, len) == Ok(chunk[o..o + Min(Min(len, c.imageStreamSize - pos), |chunk| - o)])
  {
    hide PieceOf, Within, ReadChunk;
  }

  lemma DirectReadAgrees(c: Container, pos: u64, len: nat)
    requires c.mapped.None? && pos < c.imageStreamSize && len > 0 && StreamHas(c.store, pos)
    requires SurplusAgrees(c.store, c.imageStreamSize, PieceOf(pos, c.store.chunkSize))
    ensures ReadAgrees(c, pos, len)
  {
    hide PieceOf, Within, PieceStart, ReadChunk, ReadBytes;
    var cs := c.store.chunkSize;
    var i, o := PieceOf(pos, cs), Within(pos, cs);
    var chunk := ReadChunk(c.store, i).value;
    DirectRead(c, pos, len);
    PieceLocate(pos, cs);
    var bytes := ReadBytes(Open(c), pos, len).value;
    forall k | 0 <= k < |bytes|
      ensures bytes[k] == DiskByte(c, pos + k)
    {
      assert bytes[k] == chunk[o + k];
      if o + k < cs {
        PieceUnique(pos + k, cs, i, o + k);
      } else {
        assert PieceStart(i, cs) + (o + k) == pos + k;
      }
    }
  }

  lemma DirectChunkAgrees(c: Container, i: u64)
    requires c.mapped.None? && i < Pieces(c.imageStreamSize, c.store.chunkSize) && ReadsAgree(c)
    ensures SurplusAgrees(c.store, c.imageStreamSize, i)
  {
    hide PieceOf, Within, PieceStart, Pieces, ReadChunk, ReadBytes, StreamByte;
    var total, cs := c.imageStreamSize, c.store.chunkSize;
    PieceCount(total, cs, i);
    var start := PieceStart(i, cs);
    PieceUnique(start, cs, i, 0);
    assert ReadAgrees(c, start, total);
    ShortReadIff(Open(c), start, total);
    DirectRead(c, start, total);
    var chunk := ReadChunk(c.store, i).value;
    var bytes := ReadBytes(Open(c), start, total).value;
    forall k: nat | cs <= k < |chunk| && start + k < total
      ensures chunk[k] == StreamByte(c.store, start + k)
    {
      assert bytes[k] == chunk[k] && bytes[k] == DiskBytes(c, start, start + |bytes|)[k] == DiskByte(c, start + k);
    }
  }

  /** On a direct image, whatever its chunks: every non-empty read inside the disk succeeds with a non-empty piece of
      the flat disk exactly when every chunk covers its share and what it holds beyond that repeats the stream. */
  lemma DirectReadsIff(c: Container)
    requires c.mapped.None?
    ensures ReadsAgree(c) <==>
            forall i: u64 :: i < Pieces(c.imageStreamSize, c.store.chunkSize) ==>
              ChunkCovers(c.store, c.imageStreamSize, i) && SurplusAgrees(c.store, c.imageStreamSize, i)
  {
    hide PieceOf, Within, PieceStart, Pieces, ReadChunk, FindsByte, ReadAgrees, SurplusAgrees, ChunkCovers;
    var total, cs := c.imageStreamSize, c.store.chunkSize;
    DirectCoveredIff(Open(c));
    if ReadsAgree(c) {
      AgreeingReadsFind(c);
      forall i: u64 | i < Pieces(total, cs)
        ensures ChunkCovers(c.store, total, i) && SurplusAgrees(c.store, total, i)
      {
        DirectChunkAgrees(c, i);
      }
    }
    if forall i: u64 :: i < Pieces(total, cs) ==> ChunkCovers(c.store, total, i) && SurplusAgrees(c.store, total, i) {
      forall pos: u64, len: nat | pos < total && len > 0
        ensures ReadAgrees(c, pos, len)
      {
        PieceLocate(pos, cs);
        PieceCount(total, cs, PieceOf(pos, cs));
        ShortReadIff(Open(c), pos, 1);
        DirectReadAgrees(c, pos, len);
      }
    }
  }

  // ---- mapped images: overlaps and surplus ----

  /** The chunk holding stream position `t` can be read and goes on for more than `k` bytes from there. */
  predicate Reaches(st: Store, t: u64, k: nat) {
    var r := ReadChunk(st, PieceOf(t, st.chunkSize));
    r.Ok? && Within(t, st.chunkSize) + k < |r.value|
  }

  /** Byte `k` of what a read of region `r` copies: over the stream, out of the one chunk its first byte lies in. */
  function CopiedByte(st: Store, r: Region, k: u64): Byte
    requires r.kind == ImageStream ==> Reaches(st, r.targetOffset, k)
  {
    if r.kind == ImageStream then
      ReadChunk(st, PieceOf(r.targetOffset, st.chunkSize)).value[Within(r.targetOffset, st.chunkSize) + k]
    else RegionByte(st, r, k)
  }

  /** Exactly which bytes a read delivers, on any image: as far as the buffer, the disk, the region and the chunk go,
      and from the region it starts in throughout. */
  lemma ReadsByte(im: Image, pos: u64, len: nat, k: nat)
    requires pos < im.virtualSize && len > 0 && FindsByte(im, pos)
    ensures var rb, r := ReadBytes(im, pos, len), Lookup(im, pos);
            && rb.Ok? && rb.value != []
            && (k < |rb.value| <==>
                  && k < len && pos + k < im.virtualSize && k < r.bytesInRegion
                  && (r.kind == ImageStream ==> Reaches(im.store, r.targetOffset, k)))
            && (k < |rb.value| ==> rb.value[k] == CopiedByte(im.store, r, k))
  {
    hide PieceOf, Within, ReadChunk, Lookup, Tile.ByteAt;
    RegionNotEmpty(im, pos);
  }

  /** What a lookup at `p` reports when entry `e` answers. */
  function EntryRegion(m: LoadedMap, e: MapEntry, p: u64): Region
    requires e.mapOffset <= p < e.mapOffset + e.length
  {
    Region(KindOf(m, e), Wrap64(e.targetOffset + (p - e.mapOffset)), e.length - (p - e.mapOffset))
  }

  /** A read that starts at `pos`, where entry `i` answers, can copy to `q` something else than what lies there: it has
      run on past the start of the next entry, or past the chunk size inside an oversize chunk. */
  predicate Strays(im: Image, m: LoadedMap, i: nat, pos: u64, q: u64) {
    && Serves(m, im.virtualSize, i)
    && var e := m.entries[i];
    && e.mapOffset <= pos < ServedEnd(m, im.virtualSize, i)
    && pos <= q < Min(im.virtualSize, e.mapOffset + e.length)
    && var r := EntryRegion(m, e, pos);
    && (r.kind == ImageStream ==> Reaches(im.store, r.targetOffset, q - pos))
    && (q >= ServedEnd(m, im.virtualSize, i)
        || (r.kind == ImageStream && Within(r.targetOffset, im.store.chunkSize) + (q - pos) >= im.store.chunkSize))
  }

  /** A read from entry `i` copies the disk's byte as long as it stays in what the entry serves and in the chunk's
      share. */
  lemma ServedByte(c: Container, i: nat, pos: u64, q: u64)
    requires NothingWraps(c) && c.mapped.Some?
    requires var m := Open(c).loadedMap.value; Serves(m, c.mapped.value.size, i)
    requires var m := Open(c).loadedMap.value; m.entries[i].mapOffset <= pos <= q < ServedEnd(m, c.mapped.value.size, i)
    requires var m := Open(c).loadedMap.value; var r := EntryRegion(m, m.entries[i], pos);
             r.kind == ImageStream ==>
               && Reaches(c.store, r.targetOffset, q - pos)
               && Within(r.targetOffset, c.store.chunkSize) + (q - pos) < c.store.chunkSize
    ensures var m := Open(c).loadedMap.value;
            CopiedByte(c.store, EntryRegion(m, m.entries[i], pos), q - pos) == DiskByte(c, q)
  {
    hide SortedEntries, Resolve, Inside, Tile.ByteAt, KindOf, DiskByte, PieceOf, Within, PieceStart, ReadChunk;
    var m, cs := Open(c).loadedMap.value, c.store.chunkSize;
    var e := m.entries[i];
    var t, k := e.targetOffset + (pos - e.mapOffset), q - pos;
    assert e.mapOffset + e.length < TWO_64;
    LoadedShape(c.mapped.value.data);
    ServedLookup(m, c.mapped.value.size, i, q);
    LookupNamesByte(c, q);
    match KindOf(m, e)
    case ImageStream =>
      assert e.targetOffset + e.length <= TWO_64;
      PieceLocate(t, cs);
      PieceUnique(t + k, cs, PieceOf(t, cs), Within(t, cs) + k);
    case Tiled(tile) =>
      WrapAdd(e.targetOffset, pos - e.mapOffset, k);
    case _ =>
  }

  /** A gap region is gap throughout. */
  lemma GapByte(c: Container, pos: u64, k: u64)
    requires NothingWraps(c) && c.mapped.Some? && pos + k < c.mapped.value.size
    requires Inside(Open(c).loadedMap.value, pos).None? && k < Lookup(Open(c), pos).bytesInRegion
    ensures var r := Lookup(Open(c), pos);
            r.kind.Filled? && CopiedByte(c.store, r, k) == DiskByte(c, pos + k)
  {
    hide Inside, Resolve, SortedEntries, DiskByte, EntriesFit;
    var m, vs := Open(c).loadedMap.value, c.mapped.value.size;
    LoadedShape(c.mapped.value.data);
    GapIsMaximal(m, vs, pos);
    LookupNamesByte(c, pos + k);
    GapRegion(m, vs, pos);
    GapRegion(m, vs, pos + k);
  }

  lemma GapRegion(m: LoadedMap, virtualSize: u64, p: u64)
    requires Inside(m, p).None?
    ensures var r := Resolve(m, p, virtualSize); r.kind == m.gapDefault && r.targetOffset == 0
  {
    hide PartitionPoint;
  }

  ghost predicate StraysAgree(c: Container)
    requires c.mapped.Some?
  {
    var im := Open(c);
    var m := im.loadedMap.value;
    forall i: nat, pos: u64, q: u64 {:trigger Strays(im, m, i, pos, q)} :: Strays(im, m, i, pos, q) ==>
      CopiedByte(c.store, EntryRegion(m, m.entries[i], pos), q - pos) == DiskByte(c, q)
  }

  lemma MappedReadAgrees(c: Container, pos: u64, len: nat)
    requires NothingWraps(c) && c.mapped.Some? && pos < Open(c).virtualSize && len > 0
    requires FindsByte(Open(c), pos) && StraysAgree(c)
    ensures ReadAgrees(c, pos, len)
  {
    hide ReadBytes, DiskByte, CopiedByte, Resolve, Inside, SortedEntries, KindOf, Reaches, FindsByte, Within;
    var im := Open(c);
    var m, vs := im.loadedMap.value, c.mapped.value.size;
    LoadedShape(c.mapped.value.data);
    ReadsByte(im, pos, len, 0);
    var bytes := ReadBytes(im, pos, len).value;
    forall k | 0 <= k < |bytes|
      ensures bytes[k] == DiskByte(c, pos + k)
    {
      ReadsByte(im, pos, len, k);
      if Inside(m, pos).None? {
        GapByte(c, pos, k);
      } else {
        var i := ServingEntry(m, vs, pos);
        ServedLookup(m, vs, i, pos);
        if !Strays(im, m, i, pos, pos + k) {
          ServedByte(c, i, pos, pos + k);
        }
      }
    }
  }

  lemma StrayShows(c: Container, i: nat, pos: u64, q: u64)
    requires NothingWraps(c) && c.mapped.Some? && ReadsAgree(c)
    requires Strays(Open(c), Open(c).loadedMap.value, i, pos, q)
    ensures var m := Open(c).loadedMap.value;
            CopiedByte(c.store, EntryRegion(m, m.entries[i], pos), q - pos) == DiskByte(c, q)
  {
    hide ReadBytes, DiskByte, CopiedByte, Resolve, Inside, SortedEntries, KindOf, Reaches, FindsByte, Within;
    var im, k := Open(c), q - pos;
    var m, vs := im.loadedMap.value, c.mapped.value.size;
    LoadedShape(c.mapped.value.data);
    AgreeingReadsFind(c);
    ServedLookup(m, vs, i, pos);
    assert ReadAgrees(c, pos, k + 1);
    ReadsByte(im, pos, k + 1, k);
    var bytes := ReadBytes(im, pos, k + 1).value;
    assert bytes[k] == DiskBytes(c, pos, pos + |bytes|)[k] == DiskByte(c, pos + k);
  }

  /** On a mapped image, whatever its overlaps and chunks: every non-empty read inside the disk delivers a piece of the
      flat disk exactly when every chunk the disk needs covers what is needed of it and, wherever a read can stray, what
      it copies is the disk's byte all the same. */
  lemma MappedReadsIff(c: Container)
    requires NothingWraps(c) && c.mapped.Some?
    ensures ReadsAgree(c) <==> Covered(Open(c)) && StraysAgree(c)
  {
    hide DiskByte, SortedEntries, ReadAgrees, EntriesFit, Covered, FindsByte, CopiedByte, KindOf, Reaches;
    NoShortReadIff(c);
    var im := Open(c);
    var m := im.loadedMap.value;
    if ReadsAgree(c) {
      AgreeingReadsFind(c);
      forall i: nat, pos: u64, q: u64 {:trigger Strays(im, m, i, pos, q)} | Strays(im, m, i, pos, q)
        ensures CopiedByte(c.store, EntryRegion(m, m.entries[i], pos), q - pos) == DiskByte(c, q)
      {
        StrayShows(c, i, pos, q);
      }
    }
    if Covered(im) && StraysAgree(c) {
      forall pos: u64, len: nat | pos < im.virtualSize && len > 0
        ensures ReadAgrees(c, pos, len)
      {
        MappedReadAgrees(c, pos, len);
      }
    }
  }

  // ---- well-chunked streams: overlaps only ----

  /** The byte an entry names for position `q`, overlapped or not. */
  function EntryByte(c: Container, m: LoadedMap, e: MapEntry, q: u64): Byte
    requires e.mapOffset <= q
  {
    TargetByte(c.store, KindOf(m, e), e.targetOffset + (q - e.mapOffset))
  }

  /** A read that starts where entry `i` answers can run on to `q`, where a later entry does: `q` lies past the next
      entry's start, before the entry's own end, and over the stream in the chunk of the last position the entry
      serves. */
  predicate RunsOver(st: Store, m: LoadedMap, virtualSize: u64, i: nat, q: u64) {
    && i + 1 < |m.entries| && Pickable(m.entries, i)
    && m.entries[i + 1].mapOffset <= q < Min(virtualSize, m.entries[i].mapOffset + m.entries[i].length)
    && (KindOf(m, m.entries[i]) == ImageStream ==>
         var e := m.entries[i];
         var last := m.entries[i + 1].mapOffset - 1;
         PieceOf(e.targetOffset + (q - e.mapOffset), st.chunkSize)
         == PieceOf(e.targetOffset + (last - e.mapOffset), st.chunkSize))
  }

  /** Where chunks are whole, a read from entry `i` reaches `q` just when both lie in one chunk, and copies what the
      entry names there. */
  lemma EntryCopies(c: Container, i: nat, pos: u64, q: u64)
    requires VirtualDisk.Fits(c) && c.mapped.Some? && i < |Open(c).loadedMap.value.entries|
    requires var e := Open(c).loadedMap.value.entries[i]; e.mapOffset <= pos <= q < e.mapOffset + e.length
    ensures var m := Open(c).loadedMap.value;
            var e, cs := m.entries[i], c.store.chunkSize;
            var r, t := EntryRegion(m, e, pos), e.targetOffset + (pos - e.mapOffset);
            && (r.kind == ImageStream ==>
                  && r.targetOffset == t
                  && (Reaches(c.store, t, q - pos) <==> PieceOf(t + (q - pos), cs) == PieceOf(t, cs))
                  && (Reaches(c.store, t, q - pos) ==> Within(t, cs) + (q - pos) < cs))
            && ((r.kind == ImageStream ==> Reaches(c.store, r.targetOffset, q - pos)) ==>
                  CopiedByte(c.store, r, q - pos) == EntryByte(c, m, e, q))
  {
    hide SortedEntries, Tile.ByteAt, KindOf, StreamByte, PieceOf, Within, ReadChunk;
    var m := Open(c).loadedMap.value;
    var e, k := m.entries[i], q - pos;
    assert e.mapOffset + e.length < TWO_64;
    match KindOf(m, e)
    case ImageStream =>
      assert e.targetOffset + e.length <= c.imageStreamSize;
      var t := e.targetOffset + (pos - e.mapOffset);
      StreamInChunk(c.store, c.imageStreamSize, t, k);
      SamePiece(t, k, c.store.chunkSize);
    case Tiled(tile) =>
      WrapAdd(e.targetOffset, pos - e.mapOffset, k);
      TileWraps(tile, e.targetOffset, q - e.mapOffset);
    case _ =>
  }

  lemma SamePiece(t: nat, k: nat, d: nat)
    requires d > 0
    ensures PieceOf(t + k, d) == PieceOf(t, d) <==> Within(t, d) + k < d
  {
    hide PieceOf, Within, PieceStart;
    PieceLocate(t, d);
    PieceLocate(t + k, d);
    if Within(t, d) + k < d {
      PieceUnique(t + k, d, PieceOf(t, d), Within(t, d) + k);
    }
  }

  /** Straying is then running over: the last position entry `i` serves shows all of it. */
  lemma StraysRunOver(c: Container, i: nat, pos: u64, q: u64)
    requires VirtualDisk.Fits(c) && c.mapped.Some?
    requires Strays(Open(c), Open(c).loadedMap.value, i, pos, q)
    ensures RunsOver(c.store, Open(c).loadedMap.value, c.mapped.value.size, i, q)
  {
    hide SortedEntries, KindOf, PieceOf, Within, Reaches, WellChunked;
    var m, cs := Open(c).loadedMap.value, c.store.chunkSize;
    var e := m.entries[i];
    assert e.mapOffset + e.length < TWO_64;
    EntryCopies(c, i, pos, q);
    if KindOf(m, e) == ImageStream {
      assert e.targetOffset + e.length <= c.imageStreamSize;
      var t, last := e.targetOffset + (pos - e.mapOffset), m.entries[i + 1].mapOffset - 1;
      PieceMonotone(t, e.targetOffset + (last - e.mapOffset), cs);
      PieceMonotone(e.targetOffset + (last - e.mapOffset), t + (q - pos), cs);
    }
  }

  /** Over a well-chunked stream only overlaps matter: reads agree exactly when, wherever one can run past the start of
      the next entry, the entry it runs on in names the disk's byte. */
  lemma FittingReadsIff(c: Container)
    requires VirtualDisk.Fits(c) && c.mapped.Some?
    ensures var m := Open(c).loadedMap.value;
            ReadsAgree(c) <==>
            forall i: nat, q: u64 {:trigger RunsOver(c.store, m, c.mapped.value.size, i, q)} ::
              RunsOver(c.store, m, c.mapped.value.size, i, q) ==> EntryByte(c, m, m.entries[i], q) == DiskByte(c, q)
  {
    hide DiskByte, EntryByte, SortedEntries, ReadsAgree, EntriesFit, WellChunked, Covered, FindsByte, ReadBytes;
    hide CopiedByte, KindOf, Reaches, PieceOf, Within;
    var im := Open(c);
    var m, vs := im.loadedMap.value, c.mapped.value.size;
    FittingCovered(c);
    MappedReadsIff(c);
    if StraysAgree(c) {
      forall i: nat, q: u64 {:trigger RunsOver(c.store, m, vs, i, q)} | RunsOver(c.store, m, vs, i, q)
        ensures EntryByte(c, m, m.entries[i], q) == DiskByte(c, q)
      {
        var pos := m.entries[i + 1].mapOffset - 1;
        EntryCopies(c, i, pos, q);
        assert Strays(im, m, i, pos, q);
      }
    }
    if forall i: nat, q: u64 {:trigger RunsOver(c.store, m, vs, i, q)} ::
        RunsOver(c.store, m, vs, i, q) ==> EntryByte(c, m, m.entries[i], q) == DiskByte(c, q) {
      forall i: nat, pos: u64, q: u64 {:trigger Strays(im, m, i, pos, q)} | Strays(im, m, i, pos, q)
        ensures CopiedByte(c.store, EntryRegion(m, m.entries[i], pos), q - pos) == DiskByte(c, q)
      {
        StraysRunOver(c, i, pos, q);
        EntryCopies(c, i, pos, q);
      }
    }
  }

  lemma FittingCovered(c: Container)
    requires VirtualDisk.Fits(c)
    ensures NothingWraps(c) && Covered(Open(c))
  {
    hide ReadBytes, DiskByte, SortedEntries, WellChunked, Covered, KindOf;
    forall t: u64 | t < Open(c).virtualSize
      ensures FindsByte(Open(c), t)
    {
      FittingReadFinds(c, t, 1);
    }
    NoShortReadIff(c);
  }
}
