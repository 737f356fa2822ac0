/** Seeking, and whole runs of seeks and reads over one cursor. */
module Runs {
  import opened Prelude
  import opened MapTable
  import opened Resolution
  import opened ChunkStore
  import opened VirtualDisk
  import opened Exactness
  import Writer

  datatype SeekFrom = Start(n: u64) | End(delta: i64) | Current(delta: i64)

  /** A 64-bit signed add, as a release build leaves it. */
  function WrapI64(x: int): i64
    requires -TWO_64 <= x < TWO_64
  {
    if x < -TWO_63 then x + TWO_64 else if x < TWO_63 then x else x - TWO_64
  }

  function SeekTo(im: Image, pos: u64, from: SeekFrom): Result<u64, Error> {
    var newPos :=
      match from
      case Start(n) => AsI64(n)
      case End(delta) => WrapI64(AsI64(im.virtualSize) + delta)
      case Current(delta) => WrapI64(AsI64(pos) + delta);
    if newPos < 0 then Err(SeekBeforeStart) else Ok(newPos)
  }

  /** The position a seek asks for, as a plain integer. */
  function Asked(im: Image, pos: u64, from: SeekFrom): int {
    match from
    case Start(n) => n
    case End(delta) => im.virtualSize + delta
    case Current(delta) => pos + delta
  }

  /** A seek goes exactly where it was asked, or refuses a negative position, if and only if that position is below
      2^63: from there on the signed casts take it for a negative number, or the sum wraps round. */
  lemma SeekIffBelow63(im: Image, pos: u64, from: SeekFrom)
    ensures SeekTo(im, pos, from)
            == (if Asked(im, pos, from) < 0 then Err(SeekBeforeStart) else Ok(Asked(im, pos, from)))
            <==> Asked(im, pos, from) < TWO_63
    ensures var asked := Asked(im, pos, from);
            SeekTo(im, pos, from) == if asked < 0 || TWO_63 <= asked < TWO_64 then Err(SeekBeforeStart)
                                     else Ok(asked % TWO_64)
  {
    var r := SeekTo(im, pos, from);
    var asked := Asked(im, pos, from);
    assert asked >= TWO_63 ==> r.Ok? ==> r.value < TWO_63;
  }

  // ---- runs ----

  datatype Op = Seek(from: SeekFrom) | Read(len: nat)

  /** What the reads between two successful seeks delivered, and where they began. */
  datatype Stretch = Stretch(start: u64, bytes: seq<Byte>)

  datatype Cursor = Cursor(pos: u64, before: seq<Stretch>, current: Stretch)

  function Step(im: Image, cur: Cursor, op: Op): Cursor {
    match op
    case Seek(from) =>
      (match SeekTo(im, cur.pos, from)
       case Err(_) => cur
       case Ok(pos) => Cursor(pos, cur.before + [cur.current], Stretch(pos, [])))
    case Read(len) =>
      match ReadBytes(im, cur.pos, len)
      case Err(_) => cur
      case Ok(bytes) =>
        if bytes == [] then cur
        else Cursor(cur.pos + |bytes|, cur.before, Stretch(cur.current.start, cur.current.bytes + bytes))
  }

  function Run(im: Image, cur: Cursor, ops: seq<Op>): Cursor
    decreases |ops|
  {
    if ops == [] then cur else Run(im, Step(im, cur, ops[0]), ops[1..])
  }

  ghost predicate OnDisk(c: Container, s: Stretch) {
    s.start + |s.bytes| < TWO_64 && s.bytes == DiskBytes(c, s.start, s.start + |s.bytes|)
  }

  ghost predicate CursorOk(c: Container, cur: Cursor) {
    && cur.pos == cur.current.start + |cur.current.bytes|
    && OnDisk(c, cur.current)
    && forall s :: s in cur.before ==> OnDisk(c, s)
  }

  lemma StepKeepsOnDisk(c: Container, cur: Cursor, op: Op)
    requires ReadsAgree(c) && CursorOk(c, cur)
    ensures CursorOk(c, Step(Open(c), cur, op))
  {
    hide ReadBytes, DiskByte, SeekTo, ReadsAgree, Open;
    if op.Read? && op.len > 0 && cur.pos < Open(c).virtualSize {
      AgreeingRead(c, cur.pos, op.len);
    }
  }

  /** Over any run of seeks and reads, in any order and with any buffer sizes, what is delivered between two successful
      seeks is a contiguous slice of the disk from where the first of them put the cursor. */
  lemma {:induction false} RunDeliversDisk(c: Container, cur: Cursor, ops: seq<Op>)
    requires ReadsAgree(c) && CursorOk(c, cur)
    ensures CursorOk(c, Run(Open(c), cur, ops))
    decreases ops
  {
    hide Step, CursorOk, ReadsAgree, Open;
    if ops != [] {
      StepKeepsOnDisk(c, cur, ops[0]);
      RunDeliversDisk(c, Step(Open(c), cur, ops[0]), ops[1..]);
    }
  }

  function Begin(pos: u64): Cursor {
    Cursor(pos, [], Stretch(pos, []))
  }

  function ReadOps(sizes: seq<nat>): (ops: seq<Op>)
    ensures |ops| == |sizes|
  {
    seq(|sizes|, i requires 0 <= i < |sizes| => Read(sizes[i]))
  }

  /** What a sequence of reads delivers from `pos`. */
  function Delivered(im: Image, pos: u64, sizes: seq<nat>): seq<Byte> {
    Run(im, Begin(pos), ReadOps(sizes)).current.bytes
  }

  lemma {:induction false} ReadsKeepStart(im: Image, cur: Cursor, sizes: seq<nat>)
    ensures Run(im, cur, ReadOps(sizes)).current.start == cur.current.start
    decreases |sizes|
  {
    hide ReadBytes;
    if sizes != [] {
      assert ReadOps(sizes)[1..] == ReadOps(sizes[1..]);
      ReadsKeepStart(im, Step(im, cur, Read(sizes[0])), sizes[1..]);
    }
  }

  /** The reads, whatever their sizes, take the cursor from `pos` to the end of the disk. */
  predicate Complete(im: Image, pos: u64, sizes: seq<nat>) {
    Run(im, Begin(pos), ReadOps(sizes)).pos == im.virtualSize
  }

  /** Any reads deliver the disk from `pos` to wherever they leave the cursor. */
  lemma ReadsDeliver(c: Container, pos: u64, sizes: seq<nat>)
    requires ReadsAgree(c)
    ensures var end := Run(Open(c), Begin(pos), ReadOps(sizes)).pos;
            pos <= end && Delivered(Open(c), pos, sizes) == DiskBytes(c, pos, end)
  {
    hide ReadBytes, DiskByte, ReadsAgree, Open, Run;
    assert CursorOk(c, Begin(pos));
    RunDeliversDisk(c, Begin(pos), ReadOps(sizes));
    ReadsKeepStart(Open(c), Begin(pos), sizes);
  }

  /** Any complete run of reads, in any split, delivers the rest of the disk. */
  lemma ReadsDeliverRest(c: Container, pos: u64, sizes: seq<nat>)
    requires ReadsAgree(c) && Complete(Open(c), pos, sizes)
    ensures pos <= Open(c).virtualSize
    ensures Delivered(Open(c), pos, sizes) == DiskBytes(c, pos, Open(c).virtualSize)
  {
    hide DiskByte, ReadsAgree, Open, Run, Delivered;
    ReadsDeliver(c, pos, sizes);
  }

  lemma {:induction false} ReadsProgress(c: Container, cur: Cursor, sizes: seq<nat>)
    requires ReadsAgree(c) && (forall s :: s in sizes ==> s > 0)
    requires cur.pos <= Open(c).virtualSize
    ensures var end := Run(Open(c), cur, ReadOps(sizes));
            Min(cur.pos + |sizes|, Open(c).virtualSize) <= end.pos <= Open(c).virtualSize
    decreases |sizes|
  {
    hide ReadBytes, DiskByte, ReadsAgree, Open, DiskBytes;
    if sizes != [] {
      var next := Step(Open(c), cur, Read(sizes[0]));
      assert sizes[0] in sizes;
      if cur.pos < Open(c).virtualSize {
        AgreeingRead(c, cur.pos, sizes[0]);
      }
      assert ReadOps(sizes)[1..] == ReadOps(sizes[1..]);
      assert next.pos <= Open(c).virtualSize;
      assert forall s :: s in sizes[1..] ==> s in sizes;
      ReadsProgress(c, next, sizes[1..]);
    }
  }

  /** Enough non-empty reads are complete: one a byte always is enough. */
  lemma EnoughReadsComplete(c: Container, pos: u64, sizes: seq<nat>)
    requires ReadsAgree(c) && pos <= Open(c).virtualSize
    requires (forall s :: s in sizes ==> s > 0) && |sizes| >= Open(c).virtualSize - pos
    ensures Complete(Open(c), pos, sizes)
  {
    hide Run, ReadsAgree, Open;
    ReadsProgress(c, Begin(pos), sizes);
  }

  lemma {:induction false} ReadsStayInside(im: Image, cur: Cursor, sizes: seq<nat>)
    requires cur.pos <= im.virtualSize
    ensures Run(im, cur, ReadOps(sizes)).pos <= im.virtualSize
    decreases |sizes|
  {
    hide ReadBytes;
    if sizes != [] {
      assert ReadOps(sizes)[1..] == ReadOps(sizes[1..]);
      ReadsStayInside(im, Step(im, cur, Read(sizes[0])), sizes[1..]);
    }
  }

  /** Reading until nothing more comes: after any reads, one more with room for something succeeds with nothing exactly
      when they have taken everything to the end of the disk. */
  lemma EmptyReadIffComplete(c: Container, pos: u64, sizes: seq<nat>, len: nat)
    requires ReadsAgree(c) && pos <= Open(c).virtualSize && len > 0
    ensures ReadBytes(Open(c), Run(Open(c), Begin(pos), ReadOps(sizes)).pos, len) == Ok([])
            <==> Complete(Open(c), pos, sizes)
  {
    hide Run, ReadsAgree, Open, ReadBytes, DiskByte, Lookup, ReadChunk;
    ReadsStayInside(Open(c), Begin(pos), sizes);
    var end := Run(Open(c), Begin(pos), ReadOps(sizes)).pos;
    ShortReadIff(Open(c), end, len);
    if end < Open(c).virtualSize {
      AgreeingRead(c, end, len);
    }
  }

  /** From the end of the disk on, on any image, reads deliver nothing and never fail, so the cursor stays. */
  lemma {:induction false} ReadsPastEnd(im: Image, cur: Cursor, sizes: seq<nat>)
    requires cur.pos >= im.virtualSize
    ensures forall len: nat :: ReadBytes(im, cur.pos, len) == Ok([])
    ensures Run(im, cur, ReadOps(sizes)) == cur
    decreases |sizes|
  {
    hide ReadBytes, Lookup, ReadChunk;
    forall len: nat
      ensures ReadBytes(im, cur.pos, len) == Ok([])
    {
      ShortReadIff(im, cur.pos, len);
    }
    if sizes != [] {
      assert ReadOps(sizes)[1..] == ReadOps(sizes[1..]);
      ReadsPastEnd(im, cur, sizes[1..]);
    }
  }

  /** The two traversals of a direct image agree: the slices a content traversal hands to its sink, put together, are
      what any complete run of reads from the start delivers. */
  lemma TraversalsAgree(c: Container, sizes: seq<nat>)
    requires WellFormed(c) && c.mapped.None? && Complete(Open(c), 0, sizes)
    ensures var fed := Slices(c.store, c.imageStreamSize, 0, 0);
            fed.1 == None && Concat(fed.0) == Delivered(Open(c), 0, sizes)
  {
    hide StreamByte, Slices, Delivered, Complete, ReadsAgree;
    WellFormedReadsAgree(c);
    ReadsDeliverRest(c, 0, sizes);
    PieceNext(0, c.store.chunkSize);
    SlicesAreContent(c.store, c.imageStreamSize, 0, 0);
    assert StreamBytes(c.store, 0, c.imageStreamSize) == DiskBytes(c, 0, c.imageStreamSize);
  }

  /** From writer to reader: a direct image of some content reads back as that content, in any split. */
  lemma WrittenImageReads(c: Container, content: seq<Byte>, coder: Writer.Coder, sizes: seq<nat>)
    requires Writer.WrittenBy(c.store, content, coder) && c.imageStreamSize == |content| && c.mapped.None?
    requires Complete(Open(c), 0, sizes)
    ensures WellFormed(c) && Delivered(Open(c), 0, sizes) == content
  {
    hide Delivered, Slices, Writer.WrittenBy, Complete;
    Writer.WrittenStoreReads(c.store, content, coder);
    TraversalsAgree(c, sizes);
  }

  // ---- where splitting shows ----

  /** A four-byte disk of ones with an entry of twos laid over its second half. */
  function OverlappingMap(): seq<MapEntry> {
    [MapEntry(0, 4, 0, 0), MapEntry(2, 2, 0, 1)]
  }

  function Overlapping(st: Store): Container {
    Container(st, 0, Some(MapStream(EncodeTable(OverlappingMap()), [Filled(1), Filled(2)], false, 4)))
  }

  lemma OverlappingEntries()
    ensures SortedEntries(EncodeTable(OverlappingMap())) == OverlappingMap()
  {
    hide EncodeTable, DecodeTable;
    var es := OverlappingMap();
    TableRoundTrip(es, []);
    assert EncodeTable(es) + [] == EncodeTable(es);
    assert es[..1] == [es[0]] && es[..1][..0] == [];
    assert NonEmpty(es[..1]) == [es[0]];
    assert NonEmpty(es) == es;
    assert StableSort(es[..1]) == [es[0]];
  }

  /** With overlapping entries the bytes depend on how the reads are split: the region of the first entry is not cut
      off where the second begins. */
  lemma OverlapShows(st: Store)
    ensures ReadBytes(Open(Overlapping(st)), 0, 4) == Ok([1, 1, 1, 1])
    ensures ReadBytes(Open(Overlapping(st)), 2, 2) == Ok([2, 2])
  {
    hide EncodeTable, DecodeTable, StableSort, PartitionPoint;
    OverlappingEntries();
    var m := Open(Overlapping(st)).loadedMap.value;
    assert m.entries == OverlappingMap();
    PartitionPointIs(m.entries, 0, 1);
    PartitionPointIs(m.entries, 2, 2);
    assert Resolve(m, 0, 4) == Region(Filled(1), 0, 4);
    assert Resolve(m, 2, 4) == Region(Filled(2), 0, 2);
    assert Prelude.Fill(4, 1) == [1, 1, 1, 1] && Prelude.Fill(2, 2) == [2, 2];
  }

  /** One segment of two chunks, stored as two bytes and one. */
  ghost function OversizeArchive(base: string): Archive {
    Writer.SmallPartsPack([[1, 2], [3]], 2, 2);
    Writer.Pack(base, [[1, 2], [3]], 2, Pieces(2, 2))
  }

  /** So does a chunk that decodes to more than the chunk size: here the first of two one-byte chunks holds two. */
  lemma OversizeChunkShows(st: Store)
    requires st.chunkSize == 1 && st.chunksPerSegment == 2 && st.compression == Null
    requires st.archive == OversizeArchive(st.zipBase)
    ensures var im := Open(Container(st, 2, None));
            ReadBytes(im, 0, 2) == Ok([1, 2]) && ReadBytes(im, 0, 1) == Ok([1]) && ReadBytes(im, 1, 1) == Ok([3])
  {
    hide Writer.Pack, Writer.Packable, SegmentName, ChunkBounds;
    var parts: seq<seq<Byte>> := [[1, 2], [3]];
    Writer.SmallPartsPack(parts, 2, 2);
    Writer.PackedPart(st.zipBase, parts, 2, 0);
    Writer.PackedPart(st.zipBase, parts, 2, 1);
    assert ReadChunk(st, 0) == Ok([1, 2]);
    assert ReadChunk(st, 1) == Ok([3]);
    assert PieceOf(0, 1) == 0 && PieceOf(1, 1) == 1 && Within(0, 1) == 0 && Within(1, 1) == 0;
    assert [1, 2][0..2] == [1, 2] && [1, 2][0..1] == [1] && [3][0..1] == [3];
  }
}
