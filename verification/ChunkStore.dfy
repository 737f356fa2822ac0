/** The `aff4:ImageStream` chunk store: bevy segments, their 12-byte indexes, and the codecs. */
module ChunkStore {
  import opened Prelude
  import Hex

  const INDEX_ENTRY := 12

  datatype Compression = Null | Deflate | Snappy | Lz4

  /** The library decoders, as functions: `None` is a decode error. */
  datatype Codecs = Codecs(
    inflate: seq<Byte> -> Option<seq<Byte>>,
    snappy: seq<Byte> -> Option<seq<Byte>>,
    lz4: seq<Byte> -> Option<seq<Byte>>)

  type Archive = map<string, seq<Byte>>

  datatype Store = Store(
    archive: Archive,
    zipBase: string,
    chunkSize: Positive64,
    chunksPerSegment: Positive64,
    compression: Compression,
    codecs: Codecs)

  function SegmentName(base: string, segment: nat): string {
    base + "/" + Hex.Padded(segment)
  }

  function IndexName(base: string, segment: nat): string {
    SegmentName(base, segment) + ".index"
  }

  function Entry(archive: Archive, name: string): Result<seq<Byte>, Error> {
    if name in archive then Ok(archive[name]) else Err(MissingEntry(name))
  }

  /** `chunk_bounds_from_index`: where slot `slot` of a bevy lies. */
  function ChunkBounds(index: seq<Byte>, slot: nat): (r: Result<(nat, nat), Error>)
    ensures r.Ok? ==> r.value.0 <= r.value.1
  {
    var at := slot * INDEX_ENTRY;
    if at >= TWO_64 then Err(IndexOffsetOverflow)
    else if at + INDEX_ENTRY > |index| then Err(IndexTooSmall(slot))
    else
      var offset := LE64(index[at..at + 8]);
      var length := LE32(index[at + 8..at + 12]);
      if offset + length >= TWO_64 then Err(BoundsOverflow) else Ok((offset, offset + length))
  }

  function Decode(st: Store, coded: seq<Byte>): Option<seq<Byte>> {
    match st.compression
    case Null => Some(coded)
    case Deflate => st.codecs.inflate(coded)
    case Snappy => st.codecs.snappy(coded)
    case Lz4 => st.codecs.lz4(coded)
  }

  /** The content of a chunk, given its bounds within its bevy. */
  function ChunkFromBevy(st: Store, segment: nat, start: nat, end: nat): Result<seq<Byte>, Error>
    requires start <= end
  {
    if start == end then Ok(Prelude.Fill(st.chunkSize, 0))
    else
      match Entry(st.archive, SegmentName(st.zipBase, segment))
      case Err(e) => Err(e)
      case Ok(bevy) =>
        if end > |bevy| then Err(BoundsExceedBevy(start, end, |bevy|))
        else if end - start == st.chunkSize then Ok(bevy[start..end])
        else
          match Decode(st, bevy[start..end])
          case Some(content) => Ok(content)
          case None => Err(DecodeFailed)
  }

  function ReadChunk(st: Store, idx: u64): Result<seq<Byte>, Error> {
    var segment := PieceOf(idx, st.chunksPerSegment);
    var slot := Within(idx, st.chunksPerSegment);
    match Entry(st.archive, IndexName(st.zipBase, segment))
    case Err(e) => Err(e)
    case Ok(index) =>
      match ChunkBounds(index, slot)
      case Err(e) => Err(e)
      case Ok((start, end)) => ChunkFromBevy(st, segment, start, end)
  }

  // ---- addressing ----

  lemma SegmentNameInjective(base: string, a: nat, b: nat)
    ensures SegmentName(base, a) == SegmentName(base, b) ==> a == b
  {
    assert SegmentName(base, a)[|base| + 1..] == Hex.Padded(a);
    assert SegmentName(base, b)[|base| + 1..] == Hex.Padded(b);
    Hex.PaddedInjective(a, b);
  }

  /** Index names are injective too, and never name a bevy. */
  lemma IndexNameDistinct(base: string, a: nat, b: nat)
    ensures IndexName(base, a) == IndexName(base, b) ==> a == b
    ensures IndexName(base, a) != SegmentName(base, b)
  {
    var x, y := SegmentName(base, a), SegmentName(base, b);
    if IndexName(base, a) == IndexName(base, b) {
      assert |x| == |IndexName(base, a)| - 6 && |y| == |x|;
      assert x == IndexName(base, a)[..|x|] && y == IndexName(base, b)[..|y|];
      SegmentNameInjective(base, a, b);
    }
    var i := IndexName(base, a);
    assert i[|i| - 1] == 'x';
    assert y[|y| - 1] == Hex.Padded(b)[|Hex.Padded(b)| - 1];
    assert Hex.DigitValue(y[|y| - 1]).Some?;
  }

  /** Distinct chunks never read the same index slot. */
  lemma DistinctSlots(st: Store, i: u64, j: u64)
    requires var cps := st.chunksPerSegment;
             && IndexName(st.zipBase, PieceOf(i, cps)) == IndexName(st.zipBase, PieceOf(j, cps))
             && Within(i, cps) == Within(j, cps)
    ensures i == j
  {
    hide PieceOf, Within, PieceStart;
    var cps := st.chunksPerSegment;
    IndexNameDistinct(st.zipBase, PieceOf(i, cps), PieceOf(j, cps));
    PieceUnique(i, cps, PieceOf(i, cps), Within(i, cps));
    PieceUnique(j, cps, PieceOf(i, cps), Within(i, cps));
  }

  /** The names in the archive: the base, a slash and the segment number in its eight-digit form, and that with
      `.index` after it. No other text after the slash will do. */
  lemma NamesSpelled(base: string, segment: nat, digits: string)
    ensures SegmentName(base, segment) == base + "/" + digits <==> Hex.EightDigits(segment, digits)
    ensures IndexName(base, segment) == base + "/" + digits + ".index" <==> Hex.EightDigits(segment, digits)
  {
    hide Hex.Padded, Hex.EightDigits;
    Hex.PaddedIff(segment, digits);
    var front, printed := base + "/", Hex.Padded(segment);
    assert (front + printed)[|front|..] == printed && (front + digits)[|front|..] == digits;
    var a, b := IndexName(base, segment), base + "/" + digits + ".index";
    assert a[..|a| - 6] == front + printed && b[..|b| - 6] == front + digits;
  }

  /** Two names in full. */
  lemma FirstNames()
    ensures SegmentName("b", 0) == "b/00000000" && IndexName("b", 0x2f) == "b/0000002f.index"
  {
    assert Hex.Zeros(7) == "0000000" && Hex.Zeros(6) == "000000";
    assert Hex.Number(0x2f) == Hex.Number(2) + [Hex.Digit(15)];
    assert Hex.Padded(0) == "00000000" && Hex.Padded(0x2f) == "0000002f";
  }

  // ---- when a chunk can be read ----

  /** What the index entry at `slot` says: 8 bytes of offset, then 4 of length. */
  function IndexWords(index: seq<Byte>, slot: nat): (u64, u32)
    requires 12 * slot + 12 <= |index|
  {
    (LE64(index[12 * slot..12 * slot + 8]), LE32(index[12 * slot + 8..12 * slot + 12]))
  }

  /** The stored bytes of a chunk, before decoding, decode. */
  predicate Decodes(st: Store, coded: seq<Byte>) {
    match st.compression
    case Null => true
    case Deflate => st.codecs.inflate(coded).Some?
    case Snappy => st.codecs.snappy(coded).Some?
    case Lz4 => st.codecs.lz4(coded).Some?
  }

  /** Straight from the archive: chunk `idx` can be read exactly when its segment's index is there and reaches its
      slot, what the slot says does not overflow, and either it says nothing is stored or the bevy is there, reaches
      as far and holds a whole chunk or something that decodes. */
  lemma ChunkReadableIff(st: Store, idx: u64, segment: nat, slot: nat)
    requires slot < st.chunksPerSegment && idx == segment * st.chunksPerSegment + slot
    ensures var name := st.zipBase + "/" + Hex.Padded(segment);
            ReadChunk(st, idx).Ok? <==>
            && name + ".index" in st.archive
            && var index := st.archive[name + ".index"];
            && 12 * slot < TWO_64 && 12 * slot + 12 <= |index|
            && var (offset, length) := IndexWords(index, slot);
            && offset + length < TWO_64
            && (length == 0 ||
                (name in st.archive && offset + length <= |st.archive[name]|
                 && (length == st.chunkSize || Decodes(st, st.archive[name][offset..offset + length]))))
  {
    hide PieceOf, Within, LE64, LE32;
    PieceUnique(idx, st.chunksPerSegment, segment, slot);
  }

  /** And then it is: zeros where nothing is stored, a whole stored chunk as it stands, anything else decoded. */
  lemma ChunkContent(st: Store, idx: u64, segment: nat, slot: nat)
    requires slot < st.chunksPerSegment && idx == segment * st.chunksPerSegment + slot
    requires ReadChunk(st, idx).Ok?
    ensures var name := st.zipBase + "/" + Hex.Padded(segment);
            && name + ".index" in st.archive && 12 * slot + 12 <= |st.archive[name + ".index"]|
            && var (offset, length) := IndexWords(st.archive[name + ".index"], slot);
            && (length == 0 ==> ReadChunk(st, idx) == Ok(seq<Byte>(st.chunkSize, _ => 0)))
            && (length > 0 ==> name in st.archive && offset + length <= |st.archive[name]|)
            && (length > 0 ==>
                  var stored := st.archive[name][offset..offset + length];
                  if length == st.chunkSize then ReadChunk(st, idx) == Ok(stored)
                  else
                    match st.compression
                    case Null => ReadChunk(st, idx) == Ok(stored)
                    case Deflate => Some(ReadChunk(st, idx).value) == st.codecs.inflate(stored)
                    case Snappy => Some(ReadChunk(st, idx).value) == st.codecs.snappy(stored)
                    case Lz4 => Some(ReadChunk(st, idx).value) == st.codecs.lz4(stored))
  {
    hide PieceOf, Within, LE64, LE32;
    PieceUnique(idx, st.chunksPerSegment, segment, slot);
  }

  /** Which error a read gives is settled by the first thing missing. */
  lemma ChunkErrors(st: Store, idx: u64, segment: nat, slot: nat)
    requires slot < st.chunksPerSegment && idx == segment * st.chunksPerSegment + slot
    requires ReadChunk(st, idx).Err?
    ensures var name := st.zipBase + "/" + Hex.Padded(segment);
            var e := ReadChunk(st, idx).error;
            if name + ".index" !in st.archive then e == MissingEntry(name + ".index")
            else if 12 * slot >= TWO_64 then e == IndexOffsetOverflow
            else if 12 * slot + 12 > |st.archive[name + ".index"]| then e == IndexTooSmall(slot)
            else
              var (offset, length) := IndexWords(st.archive[name + ".index"], slot);
              if offset + length >= TWO_64 then e == BoundsOverflow
              else if name !in st.archive then e == MissingEntry(name)
              else if offset + length > |st.archive[name]| then
                e == BoundsExceedBevy(offset, offset + length, |st.archive[name]|)
              else e == DecodeFailed
  {
    hide PieceOf, Within, LE64, LE32;
    PieceUnique(idx, st.chunksPerSegment, segment, slot);
  }

  // ---- the stream as one flat byte sequence ----

  /** Byte `t` of the stream, one chunk lookup at a time (zero where there is none). */
  function StreamByte(st: Store, t: u64): Byte {
    match ReadChunk(st, PieceOf(t, st.chunkSize))
    case Ok(c) => if Within(t, st.chunkSize) < |c| then c[Within(t, st.chunkSize)] else 0
    case Err(_) => 0
  }

  function StreamBytes(st: Store, from: nat, to: nat): (s: seq<Byte>)
    requires from <= to <= TWO_64
    ensures |s| == to - from
  {
    seq<Byte>(to - from, k requires 0 <= k < to - from => StreamByte(st, from + k))
  }

  /** Chunk `i` decodes to exactly one chunk of bytes; the last one need only cover what is left. */
  predicate ChunkOk(st: Store, total: u64, i: u64) {
    match ReadChunk(st, i)
    case Err(_) => false
    case Ok(c) =>
      if i + 1 < Pieces(total, st.chunkSize) then |c| == st.chunkSize
      else |c| >= total - PieceStart(i, st.chunkSize)
  }

  ghost predicate WellChunked(st: Store, total: u64) {
    forall i: u64 {:trigger ChunkOk(st, total, i)} :: i < Pieces(total, st.chunkSize) ==> ChunkOk(st, total, i)
  }

  /** A well-chunked stream continues inside the chunk that holds position `t`. */
  lemma StreamInChunk(st: Store, total: u64, t: nat, k: nat)
    requires WellChunked(st, total) && t + k < total
    ensures var c := ReadChunk(st, PieceOf(t, st.chunkSize));
            var o := Within(t, st.chunkSize);
            && c.Ok? && o < |c.value|
            && (o + k < |c.value| ==> StreamByte(st, t + k) == c.value[o + k])
            && (o + k < |c.value| <==> PieceOf(t + k, st.chunkSize) == PieceOf(t, st.chunkSize))
  {
    hide PieceOf, Within, PieceStart, Pieces, ReadChunk;
    var cs := st.chunkSize;
    var i, o := PieceOf(t, cs), Within(t, cs);
    PieceLocate(t, cs);
    PieceCount(total, cs, i);
    assert ChunkOk(st, total, i);
    PieceNext(i, cs);
    PieceCount(total, cs, i + 1);
    PieceLocate(t + k, cs);
    if o + k < cs {
      PieceUnique(t + k, cs, i, o + k);
    }
  }

  /** The slices a content traversal hands to its sink from chunk `idx` on, and the error that cut it short, if any. */
  function Slices(st: Store, total: u64, idx: nat, produced: nat): (r: (seq<seq<Byte>>, Option<Error>))
    requires produced <= total
    ensures |Concat(r.0)| <= total - produced
    decreases Pieces(total, st.chunkSize) - idx
  {
    hide Pieces, PieceStart, ReadChunk;
    if idx >= Pieces(total, st.chunkSize) then ([], None)
    else
      PieceCount(total, st.chunkSize, idx);
      PieceNext(idx, st.chunkSize);
      match ReadChunk(st, idx)
      case Err(e) => ([], Some(e))
      case Ok(chunk) =>
        var take := Min(|chunk|, total - produced);
        var rest := Slices(st, total, idx + 1, produced + take);
        assert ([chunk[..take]] + rest.0)[1..] == rest.0;
        ([chunk[..take]] + rest.0, rest.1)
  }

  /** One round of the traversal. */
  lemma SlicesStep(st: Store, total: u64, idx: nat, produced: nat)
    requires produced <= total
    ensures idx >= Pieces(total, st.chunkSize) ==> Slices(st, total, idx, produced) == ([], None)
    ensures idx < Pieces(total, st.chunkSize) ==>
              && idx < TWO_64
              && match ReadChunk(st, idx)
                 case Err(e) => Slices(st, total, idx, produced) == ([], Some(e))
                 case Ok(chunk) =>
                   var take := Min(|chunk|, total - produced);
                   var rest := Slices(st, total, idx + 1, produced + take);
                   Slices(st, total, idx, produced) == ([chunk[..take]] + rest.0, rest.1)
  {
    hide Pieces, PieceStart, ReadChunk;
    PieceCount(total, st.chunkSize, idx);
    PieceNext(idx, st.chunkSize);
  }

  /** A traversal fails exactly when some chunk cannot be read, with the first such chunk's error. */
  lemma {:induction false} TraversalFailsIff(st: Store, total: u64, idx: nat, produced: nat)
    requires produced <= total
    ensures var failure := Slices(st, total, idx, produced).1;
            && (failure.Some? <==>
                  exists j: u64 :: idx <= j < Pieces(total, st.chunkSize) && ReadChunk(st, j).Err?)
            && (failure.Some? ==>
                  exists j: u64 :: idx <= j < Pieces(total, st.chunkSize) && ReadChunk(st, j) == Err(failure.value)
                    && forall i: u64 :: idx <= i < j ==> ReadChunk(st, i).Ok?)
    decreases Pieces(total, st.chunkSize) - idx
  {
    hide Pieces, PieceStart, ReadChunk, Slices;
    SlicesStep(st, total, idx, produced);
    if idx < Pieces(total, st.chunkSize) && ReadChunk(st, idx).Ok? {
      var take := Min(|ReadChunk(st, idx).value|, total - produced);
      TraversalFailsIff(st, total, idx + 1, produced + take);
    }
  }

  /** The chunks from `idx` on, up to the first that cannot be read. */
  function ChunksFrom(st: Store, total: u64, idx: nat): seq<seq<Byte>>
    decreases Pieces(total, st.chunkSize) - idx
  {
    if idx >= Pieces(total, st.chunkSize) || idx >= TWO_64 then []
    else
      match ReadChunk(st, idx)
      case Err(_) => []
      case Ok(chunk) => [chunk] + ChunksFrom(st, total, idx + 1)
  }

  /** On any archive, whatever the sizes of its chunks, a traversal hands over those chunks put together, cut off at the
      declared size. */
  lemma {:induction false} SlicesAreChunks(st: Store, total: u64, idx: nat, produced: nat)
    requires produced <= total
    ensures var all := Concat(ChunksFrom(st, total, idx));
            Concat(Slices(st, total, idx, produced).0) == all[..Min(total - produced, |all|)]
    decreases Pieces(total, st.chunkSize) - idx
  {
    hide Pieces, PieceStart, ReadChunk, Slices;
    SlicesStep(st, total, idx, produced);
    if idx < Pieces(total, st.chunkSize) && ReadChunk(st, idx).Ok? {
      var chunk := ReadChunk(st, idx).value;
      var take := Min(|chunk|, total - produced);
      SlicesAreChunks(st, total, idx + 1, produced + take);
      var rest := Slices(st, total, idx + 1, produced + take).0;
      assert ([chunk[..take]] + rest)[1..] == rest;
      var later := ChunksFrom(st, total, idx + 1);
      assert ([chunk] + later)[1..] == later;
    }
  }

  lemma ChunkIsStream(st: Store, total: u64, i: nat)
    requires WellChunked(st, total) && i < Pieces(total, st.chunkSize)
    ensures i < TWO_64 && PieceStart(i, st.chunkSize) < total && ReadChunk(st, i).Ok?
    ensures var start := PieceStart(i, st.chunkSize);
            var chunk := ReadChunk(st, i).value;
            var take := Min(|chunk|, total - start);
            && start + take == Min(PieceStart(i + 1, st.chunkSize), total)
            && chunk[..take] == StreamBytes(st, start, start + take)
  {
    hide PieceOf, Within, PieceStart, Pieces, ReadChunk;
    var cs := st.chunkSize;
    var start := PieceStart(i, cs);
    PieceCount(total, cs, i);
    PieceNext(i, cs);
    PieceCount(total, cs, i + 1);
    PieceUnique(start, cs, i, 0);
    assert ChunkOk(st, total, i);
    var chunk := ReadChunk(st, i).value;
    var take := Min(|chunk|, total - start);
    forall k | 0 <= k < take
      ensures StreamByte(st, start + k) == chunk[k]
    {
      StreamInChunk(st, total, start, k);
    }
  }

  /** On a well-chunked stream the traversal hands over exactly the declared content. */
  lemma {:induction false} SlicesAreContent(st: Store, total: u64, idx: nat, produced: nat)
    requires WellChunked(st, total)
    requires idx <= Pieces(total, st.chunkSize) && produced == Min(PieceStart(idx, st.chunkSize), total)
    ensures Slices(st, total, idx, produced).1 == None
    ensures Concat(Slices(st, total, idx, produced).0) == StreamBytes(st, produced, total)
    decreases Pieces(total, st.chunkSize) - idx
  {
    hide PieceOf, Within, PieceStart, Pieces, ReadChunk, StreamByte;
    PieceCount(total, st.chunkSize, idx);
    if idx < Pieces(total, st.chunkSize) {
      ChunkIsStream(st, total, idx);
      var chunk := ReadChunk(st, idx).value;
      var take := Min(|chunk|, total - produced);
      SlicesAreContent(st, total, idx + 1, produced + take);
      var rest := Slices(st, total, idx + 1, produced + take).0;
      assert ([chunk[..take]] + rest)[1..] == rest;
    }
  }
}
