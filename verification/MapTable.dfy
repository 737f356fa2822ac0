/** The `aff4:Map` stream: decoding the packed entry table, sorting it, and resolving virtual offsets. */
module MapTable {
  import opened Prelude

  const ENTRY_SIZE := 28
  const TILE_SIZE := 0x10_0000

  datatype MapEntry = MapEntry(mapOffset: u64, length: u64, targetOffset: u64, targetId: u32)

  function Ascii(s: string): (b: seq<Byte>)
    requires forall i :: 0 <= i < |s| ==> s[i] < 128 as char
    ensures |b| == |s|
  {
    seq<Byte>(|s|, i requires 0 <= i < |s| => s[i] as int)
  }

  /** The repeating ASCII pattern of a multi-byte symbolic stream. */
  datatype Tile = UnknownData | UnreadableData {
    function Seed(): (s: seq<Byte>)
      ensures 0 < |s|
    {
      match this
      case UnknownData => Ascii("UNKNOWN")
      case UnreadableData => Ascii("UNREADABLEDATA")
    }

    /** The pattern restarts at every 1 MiB boundary. */
    function ByteAt(p: nat): Byte {
      var s := Seed();
      s[Within(p, TILE_SIZE) % |s|]
    }
  }

  datatype TargetKind =
    | ImageStream
    | Filled(value: Byte)
    | Tiled(tile: Tile)
    | Unrecognised

  datatype LoadedMap = LoadedMap(entries: seq<MapEntry>, targets: seq<TargetKind>, gapDefault: TargetKind)

  /** The two patterns spell their texts over and over, starting afresh at every multiple of 1 MiB, and only there. */
  lemma TileRepeats(tile: Tile, p: nat)
    ensures p < 7 ==> UnknownData.ByteAt(p) == "UNKNOWN"[p] as int
    ensures p < 14 ==> UnreadableData.ByteAt(p) == "UNREADABLEDATA"[p] as int
    ensures tile.ByteAt(p + 0x10_0000) == tile.ByteAt(p)
    ensures p % 0x10_0000 + 7 < 0x10_0000 ==> UnknownData.ByteAt(p + 7) == UnknownData.ByteAt(p)
    ensures p % 0x10_0000 + 14 < 0x10_0000 ==> UnreadableData.ByteAt(p + 14) == UnreadableData.ByteAt(p)
  {
    SeedRepeats(tile, p);
    SeedRepeats(UnknownData, p);
    SeedRepeats(UnreadableData, p);
    assert |"UNKNOWN"| == 7 && |"UNREADABLEDATA"| == 14;
  }

  lemma SeedRepeats(tile: Tile, p: nat)
    ensures p < |tile.Seed()| ==> tile.ByteAt(p) == tile.Seed()[p]
    ensures tile.ByteAt(p + TILE_SIZE) == tile.ByteAt(p)
    ensures Within(p, TILE_SIZE) + |tile.Seed()| < TILE_SIZE ==> tile.ByteAt(p + |tile.Seed()|) == tile.ByteAt(p)
  {
    hide Within, PieceOf, PieceStart, Tile.Seed;
    var q, o, n := PieceOf(p, TILE_SIZE), Within(p, TILE_SIZE), |tile.Seed()|;
    SeedPeriod(tile, o);
    SeedPeriod(tile, p);
    PieceLocate(p, TILE_SIZE);
    PieceNext(q, TILE_SIZE);
    PieceNext(0, TILE_SIZE);
    PieceUnique(p + TILE_SIZE, TILE_SIZE, q + 1, o);
    if p < n {
      PieceUnique(p, TILE_SIZE, 0, p);
    }
    if o + n < TILE_SIZE {
      PieceUnique(p + n, TILE_SIZE, q, o + n);
    }
  }

  lemma SeedPeriod(tile: Tile, o: nat)
    ensures var n := |tile.Seed()|;
            (o + n) % n == o % n && (o < n ==> o % n == o) && n < TILE_SIZE
  {
    hide Ascii;
    match tile
    case UnknownData => assert (o + 7) % 7 == o % 7;
    case UnreadableData => assert (o + 14) % 14 == o % 14;
  }

  // ---- decoding ----

  function DecodeEntry(data: seq<Byte>, off: nat): MapEntry
    requires off + ENTRY_SIZE <= |data|
  {
    MapEntry(LE64(data[off..off + 8]), LE64(data[off + 8..off + 16]),
             LE64(data[off + 16..off + 24]), LE32(data[off + 24..off + 28]))
  }

  /** Every whole 28-byte entry; a partial tail is ignored. */
  function DecodeTable(data: seq<Byte>): (es: seq<MapEntry>)
    ensures |es| == |data| / ENTRY_SIZE
  {
    seq(|data| / ENTRY_SIZE, i requires 0 <= i < |data| / ENTRY_SIZE => DecodeEntry(data, i * ENTRY_SIZE))
  }

  function EncodeEntry(e: MapEntry): (s: seq<Byte>)
    ensures |s| == ENTRY_SIZE
  {
    ToLE(e.mapOffset, 8) + ToLE(e.length, 8) + ToLE(e.targetOffset, 8) + ToLE(e.targetId, 4)
  }

  function EncodeTable(es: seq<MapEntry>): (s: seq<Byte>)
    ensures |s| == ENTRY_SIZE * |es|
  {
    if es == [] then [] else EncodeEntry(es[0]) + EncodeTable(es[1..])
  }

  lemma DecodeEncodedEntry(data: seq<Byte>, off: nat, e: MapEntry)
    requires off + ENTRY_SIZE <= |data| && data[off..off + ENTRY_SIZE] == EncodeEntry(e)
    ensures DecodeEntry(data, off) == e
  {
    var s := EncodeEntry(e);
    SliceOfSlice(data, off, ENTRY_SIZE, 0, 8);
    SliceOfSlice(data, off, ENTRY_SIZE, 8, 8);
    SliceOfSlice(data, off, ENTRY_SIZE, 16, 8);
    SliceOfSlice(data, off, ENTRY_SIZE, 24, 4);
    assert s[0..8] == ToLE(e.mapOffset, 8) && s[8..16] == ToLE(e.length, 8);
    assert s[16..24] == ToLE(e.targetOffset, 8) && s[24..28] == ToLE(e.targetId, 4);
    LE64RoundTrip(e.mapOffset);
    LE64RoundTrip(e.length);
    LE64RoundTrip(e.targetOffset);
    LE32RoundTrip(e.targetId);
  }

  lemma {:induction false} EncodedSlot(es: seq<MapEntry>, i: nat)
    requires i < |es|
    ensures EncodeTable(es)[i * ENTRY_SIZE..i * ENTRY_SIZE + ENTRY_SIZE] == EncodeEntry(es[i])
  {
    if i > 0 {
      EncodedSlot(es[1..], i - 1);
      var t := EncodeTable(es[1..]);
      var o := (i - 1) * ENTRY_SIZE;
      SliceShift(EncodeEntry(es[0]), t, o, ENTRY_SIZE);
    }
  }

  lemma PrefixSlice(a: seq<Byte>, b: seq<Byte>, i: nat, n: nat)
    requires i + n <= |a|
    ensures (a + b)[i..i + n] == a[i..i + n]
  {
  }

  /** One entry in full: map offset, length and target offset in eight bytes each, target number in four. */
  lemma EntrySpelled(data: seq<Byte>)
    requires data == [0x00, 0x10, 0, 0, 0, 0, 0, 0, 0x00, 0x02, 0, 0, 0, 0, 0, 0,
                      0x01, 0x02, 0x03, 0, 0, 0, 0, 0, 0x05, 0x01, 0, 0]
    ensures DecodeTable(data) == [MapEntry(4096, 512, 0x03_0201, 0x0105)]
  {
    SmallWord(data[0..8], 0x00, 0x10, 0);
    SmallWord(data[8..16], 0x00, 0x02, 0);
    SmallWord(data[16..24], 0x01, 0x02, 0x03);
    WordsSpelled(data[24..28]);
    assert DecodeEntry(data, 0) == MapEntry(4096, 512, 0x03_0201, 0x0105);
  }

  lemma SmallWord(s: seq<Byte>, a: Byte, b: Byte, c: Byte)
    requires s == [a, b, c, 0, 0, 0, 0, 0]
    ensures LE64(s) == a + 0x100 * (b as int) + 0x1_0000 * (c as int)
  {
    hide LE64, LE32;
    WordsSpelled(s);
    WordsSpelled(s[..4]);
    WordsSpelled(s[4..]);
  }

  /** Table codec: whatever bytes trail the last whole entry, decoding gives back the encoded list. */
  lemma TableRoundTrip(es: seq<MapEntry>, tail: seq<Byte>)
    requires |tail| < ENTRY_SIZE
    ensures DecodeTable(EncodeTable(es) + tail) == es
  {
    var data := EncodeTable(es) + tail;
    assert |data| / ENTRY_SIZE == |es|;
    forall i | 0 <= i < |es|
      ensures DecodeTable(data)[i] == es[i]
    {
      EncodedSlot(es, i);
      var o := i * ENTRY_SIZE;
      PrefixSlice(EncodeTable(es), tail, o, ENTRY_SIZE);
      DecodeEncodedEntry(data, o, es[i]);
    }
  }

  // ---- filtering and stable sorting ----

  function NonEmpty(es: seq<MapEntry>): seq<MapEntry> {
    if es == [] then []
    else
      var e := es[|es| - 1];
      NonEmpty(es[..|es| - 1]) + if e.length > 0 then [e] else []
  }

  ghost predicate Sorted(es: seq<MapEntry>) {
    forall i, j :: 0 <= i < j < |es| ==> es[i].mapOffset <= es[j].mapOffset
  }

  /** Place `e` after every entry that does not start later: the step that makes the sort stable. */
  function InsertStable(es: seq<MapEntry>, e: MapEntry): (r: seq<MapEntry>)
    ensures |r| == |es| + 1
  {
    if es == [] || es[|es| - 1].mapOffset <= e.mapOffset then es + [e]
    else InsertStable(es[..|es| - 1], e) + [es[|es| - 1]]
  }

  function StableSort(es: seq<MapEntry>): (r: seq<MapEntry>)
    ensures |r| == |es|
  {
    if es == [] then [] else InsertStable(StableSort(es[..|es| - 1]), es[|es| - 1])
  }

  /** The entries starting at `k`, in order. */
  function WithOffset(es: seq<MapEntry>, k: u64): seq<MapEntry> {
    if es == [] then []
    else
      var e := es[|es| - 1];
      WithOffset(es[..|es| - 1], k) + if e.mapOffset == k then [e] else []
  }

  lemma {:induction false} InsertSorted(es: seq<MapEntry>, e: MapEntry)
    requires Sorted(es)
    ensures Sorted(InsertStable(es, e))
    ensures forall x :: x in InsertStable(es, e) ==> x in es || x == e
  {
    if es != [] && e.mapOffset < es[|es| - 1].mapOffset {
      var init, last := es[..|es| - 1], es[|es| - 1];
      InsertSorted(init, e);
      forall x | x in InsertStable(init, e)
        ensures x.mapOffset <= last.mapOffset
      {
        if x in init {
          var i :| 0 <= i < |init| && init[i] == x;
          assert es[i].mapOffset <= last.mapOffset;
        }
      }
    }
  }

  lemma {:induction false} InsertKeepsOrder(es: seq<MapEntry>, e: MapEntry, k: u64)
    requires Sorted(es)
    ensures WithOffset(InsertStable(es, e), k) == WithOffset(es + [e], k)
  {
    assert (es + [e])[..|es|] == es;
    if es != [] && e.mapOffset < es[|es| - 1].mapOffset {
      var init, last := es[..|es| - 1], es[|es| - 1];
      InsertKeepsOrder(init, e, k);
      assert (init + [e])[..|init|] == init;
      var r := InsertStable(init, e);
      assert (r + [last])[..|r|] == r;
    }
  }

  /** The sort is a sort, and it is stable: entries with equal offsets keep their file order. */
  lemma {:induction false} StableSortCorrect(es: seq<MapEntry>)
    ensures Sorted(StableSort(es))
    ensures forall k :: WithOffset(StableSort(es), k) == WithOffset(es, k)
  {
    if es != [] {
      var init, last := es[..|es| - 1], es[|es| - 1];
      StableSortCorrect(init);
      InsertSorted(StableSort(init), last);
      forall k
        ensures WithOffset(StableSort(es), k) == WithOffset(es, k)
      {
        InsertKeepsOrder(StableSort(init), last, k);
        var t := StableSort(init);
        assert (t + [last])[..|t|] == t;
      }
    }
  }

  lemma {:induction false} WithOffsetEmpty(es: seq<MapEntry>, k: u64)
    ensures WithOffset(es, k) == [] <==> forall i :: 0 <= i < |es| ==> es[i].mapOffset != k
  {
    if es != [] {
      var init := es[..|es| - 1];
      WithOffsetEmpty(init, k);
      assert forall i :: 0 <= i < |init| ==> es[i] == init[i];
    }
  }

  /** A stable sort has only one possible outcome, so any other implementation of it agrees with `StableSort`. */
  lemma {:induction false} StableSortUnique(a: seq<MapEntry>, b: seq<MapEntry>)
    requires Sorted(a) && Sorted(b)
    requires forall k :: WithOffset(a, k) == WithOffset(b, k)
    ensures a == b
  {
    NoneLeftOver(a, b);
    NoneLeftOver(b, a);
    if a == [] {
    } else {
      var x, y := a[|a| - 1], b[|b| - 1];
      LastIsGreatest(a, b);
      LastIsGreatest(b, a);
      var a', b' := a[..|a| - 1], b[..|b| - 1];
      assert WithOffset(a, x.mapOffset) == WithOffset(a', x.mapOffset) + [x];
      assert WithOffset(b, x.mapOffset) == WithOffset(b', x.mapOffset) + [y];
      assert x == (WithOffset(a', x.mapOffset) + [x])[|WithOffset(a', x.mapOffset)|];
      assert y == (WithOffset(b', x.mapOffset) + [y])[|WithOffset(b', x.mapOffset)|];
      assert x == y;
      forall k
        ensures WithOffset(a', k) == WithOffset(b', k)
      {
        assert WithOffset(a, k) == WithOffset(b, k);
        if k == x.mapOffset {
          assert WithOffset(a', k) == WithOffset(a, k)[..|WithOffset(a, k)| - 1];
          assert WithOffset(b', k) == WithOffset(b, k)[..|WithOffset(b, k)| - 1];
        } else {
          assert WithOffset(a, k) == WithOffset(a', k) + [] == WithOffset(a', k);
          assert WithOffset(b, k) == WithOffset(b', k) + [] == WithOffset(b', k);
        }
      }
      StableSortUnique(a', b');
      assert a == a' + [x] && b == b' + [y];
    }
  }

  lemma NoneLeftOver(a: seq<MapEntry>, b: seq<MapEntry>)
    requires forall k :: WithOffset(a, k) == WithOffset(b, k)
    ensures b != [] ==> a != []
  {
    if b != [] {
      var k := b[0].mapOffset;
      WithOffsetEmpty(b, k);
      assert WithOffset(a, k) == WithOffset(b, k);
    }
  }

  lemma LastIsGreatest(a: seq<MapEntry>, b: seq<MapEntry>)
    requires Sorted(a) && a != [] && b != []
    requires forall k :: WithOffset(a, k) == WithOffset(b, k)
    ensures b[|b| - 1].mapOffset <= a[|a| - 1].mapOffset
  {
    var k := b[|b| - 1].mapOffset;
    assert WithOffset(b, k) != [];
    assert WithOffset(a, k) == WithOffset(b, k);
    WithOffsetEmpty(a, k);
  }

  /** The table's entries as the reader keeps them. */
  function SortedEntries(data: seq<Byte>): seq<MapEntry> {
    StableSort(NonEmpty(DecodeTable(data)))
  }

  lemma {:induction false} InsertionPoint(es: seq<MapEntry>, e: MapEntry, j: nat)
    requires j <= |es| && (j > 0 ==> es[j - 1].mapOffset <= e.mapOffset)
    requires forall k :: j <= k < |es| ==> e.mapOffset < es[k].mapOffset
    ensures InsertStable(es, e) == es[..j] + [e] + es[j..]
  {
    if j < |es| {
      var init := es[..|es| - 1];
      InsertionPoint(init, e, j);
      assert init[..j] == es[..j] && init[j..] + [es[|es| - 1]] == es[j..];
    } else {
      assert es[..j] == es && es[j..] == [];
    }
  }

  /** One round of the sort: shift the later entries up and drop `a[i]` into the hole. */
  method InsertInto(a: array<MapEntry>, i: nat)
    requires i < a.Length
    modifies a
    ensures a[..i + 1] == InsertStable(old(a[..i]), old(a[i]))
    ensures forall k :: i < k < a.Length ==> a[k] == old(a[k])
  {
    ghost var done := a[..i];
    var e := a[i];
    var j := i;
    while 0 < j && e.mapOffset < a[j - 1].mapOffset
      invariant 0 <= j <= i
      invariant forall k :: 0 <= k < j ==> a[k] == done[k]
      invariant forall k :: j < k <= i ==> a[k] == done[k - 1]
      invariant forall k :: j <= k < i ==> e.mapOffset < done[k].mapOffset
      invariant forall k :: i < k < a.Length ==> a[k] == old(a[k])
    {
      a[j] := a[j - 1];
      j := j - 1;
    }
    a[j] := e;
    InsertionPoint(done, e, j);
    Assemble(a[..i + 1], done, e, j);
  }

  lemma Assemble(s: seq<MapEntry>, done: seq<MapEntry>, e: MapEntry, j: nat)
    requires |s| == |done| + 1 && j <= |done| && s[j] == e
    requires forall k :: 0 <= k < j ==> s[k] == done[k]
    requires forall k :: j < k < |s| ==> s[k] == done[k - 1]
    ensures s == done[..j] + [e] + done[j..]
  {
  }

  /** Insertion sort in place; entries that start together are never exchanged. */
  method SortByOffset(a: array<MapEntry>)
    modifies a
    ensures a[..] == StableSort(old(a[..]))
  {
    ghost var was := a[..];
    var i := 0;
    while i < a.Length
      invariant 0 <= i <= a.Length
      invariant a[..i] == StableSort(was[..i])
      invariant forall k :: i <= k < a.Length ==> a[k] == was[k]
    {
      SortStep(was, i);
      InsertInto(a, i);
      i := i + 1;
    }
    assert was[..i] == was && a[..i] == a[..];
  }

  lemma SortStep(es: seq<MapEntry>, i: nat)
    requires i < |es|
    ensures StableSort(es[..i + 1]) == InsertStable(StableSort(es[..i]), es[i])
  {
    assert es[..i + 1][..i] == es[..i];
  }

  /** `parse_map_entries`: decode, drop the empty entries, sort in place. */
  method ParseMapEntries(data: seq<Byte>) returns (entries: seq<MapEntry>)
    ensures entries == SortedEntries(data)
  {
    var kept := NonEmpty(DecodeTable(data));
    var a := new MapEntry[|kept|](i requires 0 <= i < |kept| => kept[i]);
    assert a[..] == kept;
    SortByOffset(a);
    entries := a[..];
  }

  lemma {:induction false} KeptAreNonEmpty(es: seq<MapEntry>)
    ensures forall e :: e in NonEmpty(es) <==> e in es && e.length > 0
  {
    if es != [] {
      KeptAreNonEmpty(es[..|es| - 1]);
      assert es == es[..|es| - 1] + [es[|es| - 1]];
    }
  }

  // ---- resolving ----

  /** How many leading entries start at or before `p`: a binary search between `lo` and `hi`. */
  function PartitionPoint(es: seq<MapEntry>, p: u64, lo: nat, hi: nat): (r: nat)
    requires lo <= hi <= |es|
    ensures lo <= r <= hi
    ensures lo < r ==> es[r - 1].mapOffset <= p
    ensures r < hi ==> p < es[r].mapOffset
    decreases hi - lo
  {
    if lo == hi then lo
    else
      var mid := lo + (hi - lo) / 2;
      if es[mid].mapOffset <= p then PartitionPoint(es, p, mid + 1, hi) else PartitionPoint(es, p, lo, mid)
  }

  datatype Region = Region(kind: TargetKind, targetOffset: u64, bytesInRegion: u64)

  function KindOf(m: LoadedMap, e: MapEntry): TargetKind {
    if e.targetId < |m.targets| then m.targets[e.targetId] else Unrecognised
  }

  /** Entry `idx - 1` if `p` lies before its (wrapping) end. */
  function EntryAt(m: LoadedMap, idx: nat, p: u64): Option<MapEntry>
    requires idx <= |m.entries|
  {
    if idx > 0 && p < Wrap64(m.entries[idx - 1].mapOffset + m.entries[idx - 1].length) then Some(m.entries[idx - 1])
    else None
  }

  function RegionAt(m: LoadedMap, idx: nat, p: u64, virtualSize: u64): Region
    requires idx <= |m.entries|
  {
    match EntryAt(m, idx, p)
    case Some(e) =>
      var offsetInEntry := p - e.mapOffset;
      Region(KindOf(m, e), Wrap64(e.targetOffset + offsetInEntry), Wrap64(e.length - offsetInEntry))
    case None =>
      var gapEnd := if idx < |m.entries| then m.entries[idx].mapOffset else virtualSize;
      Region(m.gapDefault, 0, Max(1, gapEnd - p))
  }

  function Inside(m: LoadedMap, p: u64): Option<MapEntry> {
    EntryAt(m, PartitionPoint(m.entries, p, 0, |m.entries|), p)
  }

  function Resolve(m: LoadedMap, p: u64, virtualSize: u64): Region {
    RegionAt(m, PartitionPoint(m.entries, p, 0, |m.entries|), p, virtualSize)
  }

  function UnreadableRegions(m: LoadedMap): (rs: seq<(u64, u64)>) {
    RegionsOf(m, m.entries)
  }

  function RegionsOf(m: LoadedMap, es: seq<MapEntry>): seq<(u64, u64)> {
    if es == [] then []
    else (if KindOf(m, es[0]) == Tiled(UnreadableData) then [(es[0].mapOffset, es[0].length)] else [])
         + RegionsOf(m, es[1..])
  }
}
