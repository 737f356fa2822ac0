/** The writing side of a chunk store, kept as simple as possible, and the proof that reading inverts it. */
module Writer {
  import opened Prelude
  import opened ChunkStore

  // ---- bevies and indexes ----

  function IndexEntry(offset: u64, length: u32): (s: seq<Byte>)
    ensures |s| == INDEX_ENTRY
  {
    ToLE(offset, 8) + ToLE(length, 4)
  }

  /** The parts fit the index: 32-bit lengths, 64-bit ends. */
  ghost predicate Indexable(parts: seq<seq<Byte>>, offset: nat) {
    && offset + |Concat(parts)| < TWO_64
    && forall i :: 0 <= i < |parts| ==> |parts[i]| < TWO_32
  }

  lemma IndexableTail(parts: seq<seq<Byte>>, offset: nat)
    requires Indexable(parts, offset) && parts != []
    ensures offset < TWO_64 && |parts[0]| < TWO_32 && Indexable(parts[1..], offset + |parts[0]|)
  {
    assert forall i :: 0 <= i < |parts[1..]| ==> parts[1..][i] == parts[i + 1];
  }

  /** One entry a part, for parts laid end to end from `offset`. */
  ghost function Index(parts: seq<seq<Byte>>, offset: nat): (s: seq<Byte>)
    requires Indexable(parts, offset)
    ensures |s| == INDEX_ENTRY * |parts|
  {
    if parts == [] then []
    else
      IndexableTail(parts, offset);
      IndexEntry(offset, |parts[0]|) + Index(parts[1..], offset + |parts[0]|)
  }

  lemma {:induction false} PartInConcat(parts: seq<seq<Byte>>, j: nat)
    requires j < |parts|
    ensures var o := |Concat(parts[..j])|;
            o + |parts[j]| <= |Concat(parts)| && Concat(parts)[o..o + |parts[j]|] == parts[j]
  {
    if j == 0 {
      assert parts[..0] == [];
    } else {
      var tail := parts[1..];
      PartInConcat(tail, j - 1);
      assert parts[..j][1..] == tail[..j - 1];
      var o := |Concat(tail[..j - 1])|;
      SliceShift(parts[0], Concat(tail), o, |parts[j]|);
    }
  }

  lemma IndexCons(parts: seq<seq<Byte>>, offset: nat, j: nat)
    requires Indexable(parts, offset) && parts != [] && j <= |parts|
    ensures offset < TWO_64 && |parts[0]| < TWO_32 && Indexable(parts[1..], offset + |parts[0]|)
    ensures Index(parts, offset) == IndexEntry(offset, |parts[0]|) + Index(parts[1..], offset + |parts[0]|)
    ensures |Concat(parts[..j])| == if j == 0 then 0 else |parts[0]| + |Concat(parts[1..][..j - 1])|
  {
    hide IndexEntry;
    IndexableTail(parts, offset);
    if j > 0 {
      assert parts[..j][1..] == parts[1..][..j - 1];
    }
  }

  lemma {:induction false} IndexSlot(parts: seq<seq<Byte>>, offset: nat, j: nat)
    requires Indexable(parts, offset) && j < |parts|
    ensures offset + |Concat(parts[..j])| < TWO_64 && |parts[j]| < TWO_32
    ensures Index(parts, offset)[j * INDEX_ENTRY..j * INDEX_ENTRY + INDEX_ENTRY]
         == IndexEntry(offset + |Concat(parts[..j])|, |parts[j]|)
  {
    hide IndexEntry, Indexable, Index, Concat;
    IndexableTail(parts, offset);
    IndexCons(parts, offset, j);
    if j > 0 {
      var tail := parts[1..];
      IndexSlot(tail, offset + |parts[0]|, j - 1);
      var t := Index(tail, offset + |parts[0]|);
      var o := (j - 1) * INDEX_ENTRY;
      SliceShift(IndexEntry(offset, |parts[0]|), t, o, INDEX_ENTRY);
    }
  }

  lemma DecodeIndexEntry(index: seq<Byte>, slot: u64, offset: u64, length: u32)
    requires var at := slot * INDEX_ENTRY;
             at + INDEX_ENTRY <= |index| && at < TWO_64 && index[at..at + INDEX_ENTRY] == IndexEntry(offset, length)
    ensures ChunkBounds(index, slot) ==
            if offset + length < TWO_64 then Ok((offset, offset + length)) else Err(BoundsOverflow)
  {
    var at := slot * INDEX_ENTRY;
    var s := IndexEntry(offset, length);
    SliceOfSlice(index, at, INDEX_ENTRY, 0, 8);
    SliceOfSlice(index, at, INDEX_ENTRY, 8, 4);
    assert s[0..8] == ToLE(offset, 8) && s[8..12] == ToLE(length, 4);
    LE64RoundTrip(offset);
    LE32RoundTrip(length);
  }

  lemma PastTheIndex(index: seq<Byte>, j: nat)
    requires |index| <= j * INDEX_ENTRY
    ensures ChunkBounds(index, j).Err?
  {
  }

  /** Index codec: slot `j` gives back exactly where part `j` lies, and slots past the last part are refused. */
  lemma IndexRoundTrip(parts: seq<seq<Byte>>, j: u64)
    requires Indexable(parts, 0) && |parts| * INDEX_ENTRY < TWO_64
    ensures j < |parts| ==>
              var o := |Concat(parts[..j])|;
              && ChunkBounds(Index(parts, 0), j) == Ok((o, o + |parts[j]|))
              && o + |parts[j]| <= |Concat(parts)| && Concat(parts)[o..o + |parts[j]|] == parts[j]
    ensures j >= |parts| ==> ChunkBounds(Index(parts, 0), j).Err?
  {
    hide Index, ChunkBounds, Concat, IndexEntry;
    if j < |parts| {
      PartInConcat(parts, j);
      IndexSlot(parts, 0, j);
      DecodeIndexEntry(Index(parts, 0), j, |Concat(parts[..j])|, |parts[j]|);
    } else {
      PastTheIndex(Index(parts, 0), j);
    }
  }

  // ---- packing into segments ----

  /** The parts that go into segment `s`. */
  function SegmentParts(parts: seq<seq<Byte>>, cps: Positive64, s: nat): seq<seq<Byte>> {
    PieceOrder(s, s + 1, cps);
    parts[Min(PieceStart(s, cps), |parts|)..Min(PieceStart(s + 1, cps), |parts|)]
  }

  ghost predicate Packable(parts: seq<seq<Byte>>, cps: Positive64) {
    && |parts| < TWO_64
    && forall s: nat ::
         Indexable(SegmentParts(parts, cps, s), 0) && |SegmentParts(parts, cps, s)| * INDEX_ENTRY < TWO_64
  }

  /** The first `n` segments, each a bevy and its index. */
  ghost function Pack(base: string, parts: seq<seq<Byte>>, cps: Positive64, n: nat): Archive
    requires Packable(parts, cps)
  {
    if n == 0 then map[]
    else
      var ps := SegmentParts(parts, cps, n - 1);
      Pack(base, parts, cps, n - 1)[SegmentName(base, n - 1) := Concat(ps)][IndexName(base, n - 1) := Index(ps, 0)]
  }

  lemma {:induction false} PackLookup(base: string, parts: seq<seq<Byte>>, cps: Positive64, n: nat, s: nat)
    requires Packable(parts, cps) && s < n
    ensures var ps := SegmentParts(parts, cps, s);
            && Entry(Pack(base, parts, cps, n), SegmentName(base, s)) == Ok(Concat(ps))
            && Entry(Pack(base, parts, cps, n), IndexName(base, s)) == Ok(Index(ps, 0))
  {
    hide SegmentParts, SegmentName;
    IndexNameDistinct(base, n - 1, s);
    IndexNameDistinct(base, s, n - 1);
    if s < n - 1 {
      PackLookup(base, parts, cps, n - 1, s);
      SegmentNameInjective(base, s, n - 1);
    }
  }

  /** Part `i` sits in the slot its address says. */
  lemma PartInSegment(parts: seq<seq<Byte>>, cps: Positive64, i: nat)
    requires i < |parts|
    ensures var s, j := PieceOf(i, cps), Within(i, cps);
            s < Pieces(|parts|, cps) && j < |SegmentParts(parts, cps, s)| && SegmentParts(parts, cps, s)[j] == parts[i]
  {
    hide PieceOf, Within, PieceStart, Pieces;
    var s := PieceOf(i, cps);
    PieceLocate(i, cps);
    PieceNext(s, cps);
    PieceCount(|parts|, cps, s);
  }

  /** Reading slot by slot from a packed archive gives back every part. */
  lemma PackedPart(base: string, parts: seq<seq<Byte>>, cps: Positive64, i: nat)
    requires Packable(parts, cps) && i < |parts|
    ensures var a := Pack(base, parts, cps, Pieces(|parts|, cps));
            var s, j := PieceOf(i, cps), Within(i, cps);
            && Entry(a, IndexName(base, s)).Ok? && Entry(a, SegmentName(base, s)).Ok?
            && ChunkBounds(Entry(a, IndexName(base, s)).value, j).Ok?
            && var (start, end) := ChunkBounds(Entry(a, IndexName(base, s)).value, j).value;
               var bevy := Entry(a, SegmentName(base, s)).value;
               end <= |bevy| && bevy[start..end] == parts[i]
  {
    hide PieceOf, Within, Pieces, SegmentParts, SegmentName, Pack, ChunkBounds;
    var s, j := PieceOf(i, cps), Within(i, cps);
    PartInSegment(parts, cps, i);
    PackLookup(base, parts, cps, Pieces(|parts|, cps), s);
    IndexRoundTrip(SegmentParts(parts, cps, s), j);
  }

  // ---- chunking content ----

  /** Chunk `i` of the content, the last one padded with zeros. */
  function PaddedChunk(content: seq<Byte>, cs: Positive64, i: nat): (c: seq<Byte>)
    requires PieceStart(i, cs) < |content|
    ensures |c| == cs
  {
    PieceNext(i, cs);
    var end := Min(PieceStart(i + 1, cs), |content|);
    content[PieceStart(i, cs)..end] + Prelude.Fill(PieceStart(i + 1, cs) - end, 0)
  }

  /** A writer's free choices: its coder, and which all-zero chunks it leaves out. */
  datatype Coder = Coder(encode: seq<Byte> -> seq<Byte>, omit: nat -> bool)

  /** What is stored for a chunk: nothing for an omitted zero chunk, the chunk itself when coding does not shrink it
      (or would leave nothing, which an index could not tell from an omitted chunk), its coded form otherwise. */
  function Stored(coder: Coder, i: nat, chunk: seq<Byte>): (s: seq<Byte>)
    ensures |s| <= |chunk|
  {
    var coded := coder.encode(chunk);
    if coder.omit(i) && chunk == Prelude.Fill(|chunk|, 0) then []
    else if 0 < |coded| < |chunk| then coded
    else chunk
  }

  function StoredChunks(content: seq<Byte>, cs: Positive64, coder: Coder): (parts: seq<seq<Byte>>)
    ensures |parts| == Pieces(|content|, cs)
    ensures forall i :: 0 <= i < |parts| ==> |parts[i]| <= cs
  {
    hide Pieces, PieceStart;
    seq(Pieces(|content|, cs), i requires 0 <= i < Pieces(|content|, cs) =>
      PieceCount(|content|, cs, i); Stored(coder, i, PaddedChunk(content, cs, i)))
  }

  /** Sizes that always fit the format: 32-bit chunks, and 64-bit bevies and indexes for as many chunks as a segment
      really gets, which is no more than there are. */
  predicate Fits(content: seq<Byte>, cs: Positive64, cps: Positive64) {
    var fullest := Min(cps, Pieces(|content|, cs));
    |content| < TWO_64 && cs < TWO_32 && PieceStart(fullest, cs) < TWO_64 && fullest * INDEX_ENTRY < TWO_64
  }

  lemma {:induction false} ConcatBound(parts: seq<seq<Byte>>, m: nat)
    requires forall i :: 0 <= i < |parts| ==> |parts[i]| <= m
    ensures |Concat(parts)| <= PieceStart(|parts|, m)
  {
    hide PieceStart;
    if parts != [] {
      assert forall i :: 0 <= i < |parts[1..]| ==> parts[1..][i] == parts[i + 1];
      ConcatBound(parts[1..], m);
      PieceNext(|parts| - 1, m);
    } else {
      PieceNext(0, m);
    }
  }

  lemma SmallPartsPack(parts: seq<seq<Byte>>, cs: Positive64, cps: Positive64)
    requires |parts| < TWO_64 && cs < TWO_32
    requires PieceStart(Min(cps, |parts|), cs) < TWO_64 && Min(cps, |parts|) * INDEX_ENTRY < TWO_64
    requires forall i :: 0 <= i < |parts| ==> |parts[i]| <= cs
    ensures Packable(parts, cps)
  {
    hide PieceStart;
    forall s: nat
      ensures Indexable(SegmentParts(parts, cps, s), 0) && |SegmentParts(parts, cps, s)| * INDEX_ENTRY < TWO_64
    {
      var ps := SegmentParts(parts, cps, s);
      PieceNext(s, cps);
      assert |ps| <= Min(cps, |parts|);
      assert forall i :: 0 <= i < |ps| ==> ps[i] in parts;
      ConcatBound(ps, cs);
      PieceOrder(|ps|, Min(cps, |parts|), cs);
    }
  }

  lemma FewerPieces(x: nat, d: nat)
    requires d > 0
    ensures Pieces(x, d) <= x
  {
    hide Pieces, PieceStart;
    PieceCount(x, d, x);
    PieceNext(x, d);
  }

  /** Content of such sizes can always be packed, whatever the coder. */
  lemma ContentPacks(content: seq<Byte>, cs: Positive64, cps: Positive64, coder: Coder)
    requires Fits(content, cs, cps)
    ensures Packable(StoredChunks(content, cs, coder), cps)
  {
    hide Pieces, PieceStart;
    FewerPieces(|content|, cs);
    SmallPartsPack(StoredChunks(content, cs, coder), cs, cps);
  }

  /** The archive a writer leaves behind, if what it stores fits the index fields. */
  ghost function WriteArchive(base: string, content: seq<Byte>, cs: Positive64, cps: Positive64, coder: Coder): Archive
    requires Packable(StoredChunks(content, cs, coder), cps)
  {
    var parts := StoredChunks(content, cs, coder);
    Pack(base, parts, cps, Pieces(|parts|, cps))
  }

  /** The codec the store names undoes the writer's coder on whole chunks; with no codec the coder does nothing. */
  ghost predicate Inverts(st: Store, coder: Coder) {
    forall c: seq<Byte> :: |c| == st.chunkSize ==>
      match st.compression
      case Null => coder.encode(c) == c
      case Deflate => st.codecs.inflate(coder.encode(c)) == Some(c)
      case Snappy => st.codecs.snappy(coder.encode(c)) == Some(c)
      case Lz4 => st.codecs.lz4(coder.encode(c)) == Some(c)
  }

  ghost predicate WrittenBy(st: Store, content: seq<Byte>, coder: Coder) {
    && |content| < TWO_64
    && Packable(StoredChunks(content, st.chunkSize, coder), st.chunksPerSegment)
    && Inverts(st, coder)
    && st.archive == WriteArchive(st.zipBase, content, st.chunkSize, st.chunksPerSegment, coder)
  }

  lemma StoredReadsBack(st: Store, coder: Coder, i: nat, chunk: seq<Byte>, segment: nat, start: nat, end: nat)
    requires Inverts(st, coder) && |chunk| == st.chunkSize
    requires Entry(st.archive, SegmentName(st.zipBase, segment)).Ok?
    requires var bevy := Entry(st.archive, SegmentName(st.zipBase, segment)).value;
             start <= end <= |bevy| && bevy[start..end] == Stored(coder, i, chunk)
    ensures ChunkFromBevy(st, segment, start, end) == Ok(chunk)
  {
    assert end - start == |Stored(coder, i, chunk)|;
  }

  /** Chunk-store round trip, chunk by chunk. */
  lemma WrittenChunkReads(st: Store, content: seq<Byte>, coder: Coder, i: nat)
    requires WrittenBy(st, content, coder) && i < Pieces(|content|, st.chunkSize)
    ensures i < TWO_64 && PieceStart(i, st.chunkSize) < |content|
    ensures ReadChunk(st, i) == Ok(PaddedChunk(content, st.chunkSize, i))
  {
    hide PieceOf, Within, PieceStart, Pieces, PaddedChunk, SegmentName, Pack, ChunkBounds, ChunkFromBevy, Stored;
    PieceCount(|content|, st.chunkSize, i);
    PieceNext(i, st.chunkSize);
    var parts := StoredChunks(content, st.chunkSize, coder);
    PackedPart(st.zipBase, parts, st.chunksPerSegment, i);
    var segment := PieceOf(i, st.chunksPerSegment);
    var index := Entry(st.archive, IndexName(st.zipBase, segment)).value;
    var (start, end) := ChunkBounds(index, Within(i, st.chunksPerSegment)).value;
    StoredReadsBack(st, coder, i, PaddedChunk(content, st.chunkSize, i), segment, start, end);
  }

  lemma WrittenByteReads(st: Store, content: seq<Byte>, coder: Coder, t: nat)
    requires WrittenBy(st, content, coder) && t < |content|
    ensures StreamByte(st, t) == content[t]
  {
    hide PieceOf, Within, PieceStart, Pieces, ReadChunk, WrittenBy;
    var i := PieceOf(t, st.chunkSize);
    PieceLocate(t, st.chunkSize);
    PieceCount(|content|, st.chunkSize, i);
    PieceNext(i, st.chunkSize);
    WrittenChunkReads(st, content, coder, i);
  }

  lemma WrittenIsWellChunked(st: Store, content: seq<Byte>, coder: Coder)
    requires WrittenBy(st, content, coder)
    ensures WellChunked(st, |content|)
  {
    hide PieceOf, Within, PieceStart, Pieces, ReadChunk, Packable, Inverts;
    var cs, total := st.chunkSize, |content|;
    forall i: u64 | i < Pieces(total, cs)
      ensures ChunkOk(st, total, i)
    {
      WrittenChunkReads(st, content, coder, i);
      PieceNext(i, cs);
      PieceCount(total, cs, i + 1);
    }
  }

  /** Chunk-store round trip: what was written is well chunked, reads back as one flat stream, and is handed to a
      content traversal in full, whatever the coder and whichever zero chunks were left out. */
  lemma WrittenStoreReads(st: Store, content: seq<Byte>, coder: Coder)
    requires WrittenBy(st, content, coder)
    ensures WellChunked(st, |content|)
    ensures StreamBytes(st, 0, |content|) == content
    ensures Slices(st, |content|, 0, 0).1 == None && Concat(Slices(st, |content|, 0, 0).0) == content
  {
    hide PieceOf, Within, PieceStart, Pieces, ReadChunk, Slices, StreamByte, WellChunked, Packable, Inverts;
    var total := |content|;
    WrittenIsWellChunked(st, content, coder);
    forall t | 0 <= t < total
      ensures StreamByte(st, t) == content[t]
    {
      WrittenByteReads(st, content, coder, t);
    }
    assert StreamBytes(st, 0, total) == content;
    PieceNext(0, st.chunkSize);
    SlicesAreContent(st, total, 0, 0);
  }

  /** Any content whose stored chunks fit the index fields can be written, with any codec that undoes the coder and any
      choice of omitted zero chunks, and the store written reads back as it. */
  lemma WriteThenRead(base: string, content: seq<Byte>, cs: Positive64, cps: Positive64, compression: Compression,
                      codecs: Codecs, coder: Coder) returns (st: Store)
    requires |content| < TWO_64 && Packable(StoredChunks(content, cs, coder), cps)
    requires Inverts(Store(map[], base, cs, cps, compression, codecs), coder)
    ensures WrittenBy(st, content, coder) && st == Store(st.archive, base, cs, cps, compression, codecs)
    ensures WellChunked(st, |content|) && StreamBytes(st, 0, |content|) == content
    ensures Slices(st, |content|, 0, 0).1 == None && Concat(Slices(st, |content|, 0, 0).0) == content
  {
    hide WriteArchive, Slices, StreamBytes, WellChunked;
    st := Store(WriteArchive(base, content, cs, cps, coder), base, cs, cps, compression, codecs);
    WrittenStoreReads(st, content, coder);
  }
}
