/** What `Resolve` means: it answers like a scan of the raw table, and its regions hang together. */
module Resolution {
  import opened Prelude
  import opened MapTable

  // ---- the naive reading of the raw table ----

  /** One pass over the undecorated table, keeping the best entry so far. */
  function Scan(table: seq<MapEntry>, p: u64): Option<MapEntry> {
    if table == [] then None
    else
      var best := Scan(table[..|table| - 1], p);
      var e := table[|table| - 1];
      if e.length > 0 && e.mapOffset <= p && (best.None? || best.value.mapOffset <= e.mapOffset) then Some(e) else best
  }

  predicate Candidate(e: MapEntry, p: u64) {
    e.length > 0 && e.mapOffset <= p
  }

  predicate Covers(e: MapEntry, p: u64) {
    e.mapOffset <= p < e.mapOffset + e.length
  }

  /** `i` is the candidate with the greatest start, the latest in the file among equals. */
  ghost predicate IsBest(table: seq<MapEntry>, p: u64, i: nat) {
    && i < |table| && Candidate(table[i], p)
    && forall j :: 0 <= j < |table| && Candidate(table[j], p) ==>
        table[j].mapOffset < table[i].mapOffset || (table[j].mapOffset == table[i].mapOffset && j <= i)
  }

  lemma {:induction false} ScanFindsBest(table: seq<MapEntry>, p: u64)
    ensures Scan(table, p).None? <==> forall j :: 0 <= j < |table| ==> !Candidate(table[j], p)
    ensures Scan(table, p).Some? ==> exists i: nat :: IsBest(table, p, i) && table[i] == Scan(table, p).value
  {
    if table != [] {
      var init, last := table[..|table| - 1], |table| - 1;
      ScanFindsBest(init, p);
      assert forall j :: 0 <= j < last ==> table[j] == init[j];
      if Scan(init, p).None? {
        assert Candidate(table[last], p) ==> IsBest(table, p, last);
      } else {
        var i: nat :| IsBest(init, p, i) && init[i] == Scan(init, p).value;
        assert init[i] == table[i];
        if Candidate(table[last], p) && table[i].mapOffset <= table[last].mapOffset {
          assert IsBest(table, p, last);
        } else {
          assert IsBest(table, p, i);
        }
      }
    }
  }

  /** `r` separates the entries that start at or before `p` from the later ones. */
  predicate IsPoint(es: seq<MapEntry>, p: u64, r: nat) {
    && r <= |es|
    && (r > 0 ==> es[r - 1].mapOffset <= p)
    && (r < |es| ==> p < es[r].mapOffset)
  }

  lemma PointBefore(es: seq<MapEntry>, p: u64, q: nat, p': u64, r: nat)
    requires Sorted(es) && IsPoint(es, p, q) && IsPoint(es, p', r) && p <= p'
    ensures q <= r
  {
  }

  lemma PartitionPointIs(es: seq<MapEntry>, p: u64, r: nat)
    requires Sorted(es) && IsPoint(es, p, r)
    ensures PartitionPoint(es, p, 0, |es|) == r
  {
    var q := PartitionPoint(es, p, 0, |es|);
    PointBefore(es, p, q, p, r);
    PointBefore(es, p, r, p, q);
  }

  /** The entry just before the separating point. */
  function Before(es: seq<MapEntry>, r: nat): Option<MapEntry>
    requires r <= |es|
  {
    if r > 0 then Some(es[r - 1]) else None
  }

  /** Inserting an entry moves the separating point only if the entry starts at or before `p`. */
  lemma InsertMovesPoint(es: seq<MapEntry>, e: MapEntry, p: u64, j: nat, q: nat)
    requires Sorted(es) && IsPoint(es, e.mapOffset, j) && IsPoint(es, p, q)
    ensures var r := es[..j] + [e] + es[j..];
            if e.mapOffset <= p
            then j <= q && IsPoint(r, p, q + 1) && Before(r, q + 1) == (if j == q then Some(e) else Before(es, q))
            else q <= j && IsPoint(r, p, q) && Before(r, q) == Before(es, q)
  {
    var r := es[..j] + [e] + es[j..];
    if e.mapOffset <= p {
      PointBefore(es, e.mapOffset, j, p, q);
      assert r[q] == if q == j then e else es[q - 1];
      assert q < |es| ==> r[q + 1] == es[q];
    } else {
      PointBefore(es, p, q, e.mapOffset, j);
      assert r[q] == if q == j then e else es[q];
    }
  }

  function LastStarted(es: seq<MapEntry>, p: u64): Option<MapEntry> {
    Before(es, PartitionPoint(es, p, 0, |es|))
  }

  lemma PointBound(es: seq<MapEntry>, p: u64, j: nat, e: MapEntry, q: nat)
    requires Sorted(es) && IsPoint(es, e.mapOffset, j) && IsPoint(es, p, q) && e.mapOffset <= p
    ensures j == q <==> Before(es, q).None? || Before(es, q).value.mapOffset <= e.mapOffset
  {
    PointBefore(es, e.mapOffset, j, p, q);
    if j < q {
      assert es[j].mapOffset <= es[q - 1].mapOffset;
    }
  }

  lemma InsertPick(es: seq<MapEntry>, e: MapEntry, p: u64)
    requires Sorted(es)
    ensures LastStarted(InsertStable(es, e), p) ==
            var best := LastStarted(es, p);
            if e.mapOffset <= p && (best.None? || best.value.mapOffset <= e.mapOffset) then Some(e) else best
  {
    hide PartitionPoint, InsertStable, Sorted;
    var j := InsertionIndex(es, e);
    var q := PartitionPoint(es, p, 0, |es|);
    var r := es[..j] + [e] + es[j..];
    InsertSorted(es, e);
    InsertMovesPoint(es, e, p, j, q);
    if e.mapOffset <= p {
      PartitionPointIs(r, p, q + 1);
      PointBound(es, p, j, e, q);
    } else {
      PartitionPointIs(r, p, q);
    }
  }

  /** Filtering, stable sorting and binary search together answer exactly like the scan. */
  lemma {:induction false} PickIsScan(table: seq<MapEntry>, p: u64)
    ensures LastStarted(StableSort(NonEmpty(table)), p) == Scan(table, p)
  {
    if table != [] {
      var init, e := table[..|table| - 1], table[|table| - 1];
      PickIsScan(init, p);
      StableSortCorrect(NonEmpty(init));
      if e.length > 0 {
        InsertPick(StableSort(NonEmpty(init)), e, p);
        SortSnoc(NonEmpty(init), e);
        assert NonEmpty(table) == NonEmpty(init) + [e];
      } else {
        assert NonEmpty(table) == NonEmpty(init);
      }
    }
  }

  lemma SortSnoc(es: seq<MapEntry>, e: MapEntry)
    ensures StableSort(es + [e]) == InsertStable(StableSort(es), e)
  {
    assert (es + [e])[..|es|] == es;
  }

  /** The map the reader builds from the `/map` bytes and the `/idx` target kinds. */
  function Load(data: seq<Byte>, targets: seq<TargetKind>, gapIsFF: bool): (m: LoadedMap)
  {
    LoadedMap(SortedEntries(data), targets, Filled(if gapIsFF then 0xFF else 0))
  }

  /** The sorted list loses nothing: it is a sorted, order-keeping rearrangement of the non-empty encoded entries. */
  lemma LoadedEntries(es: seq<MapEntry>, tail: seq<Byte>)
    requires |tail| < ENTRY_SIZE
    ensures var got := SortedEntries(EncodeTable(es) + tail);
            Sorted(got) && forall k :: WithOffset(got, k) == WithOffset(NonEmpty(es), k)
  {
    TableRoundTrip(es, tail);
    StableSortCorrect(NonEmpty(es));
  }

  /** On any raw table, overlapping or not: which entry `Resolve` uses and what it answers. */
  lemma ResolveReadsTable(data: seq<Byte>, targets: seq<TargetKind>, gapIsFF: bool, p: u64, virtualSize: u64)
    ensures var m := Load(data, targets, gapIsFF);
            var r := Resolve(m, p, virtualSize);
            match Scan(DecodeTable(data), p)
            case Some(e) =>
              if Covers(e, p) && e.mapOffset + e.length < TWO_64
              then
                && Inside(m, p) == Some(e)
                && r == Region(KindOf(m, e), Wrap64(e.targetOffset + (p - e.mapOffset)), e.mapOffset + e.length - p)
              else Inside(m, p) == None && r.kind == m.gapDefault && r.targetOffset == 0
            case None => Inside(m, p) == None && r.kind == m.gapDefault && r.targetOffset == 0
  {
    hide PartitionPoint, Scan, StableSort, NonEmpty, DecodeTable, KindOf;
    PickIsScan(DecodeTable(data), p);
    ScanFindsBest(DecodeTable(data), p);
  }

  /** The lookup and the table agree on which positions are mapped exactly when no entry the lookup can pick runs
      past the last 64-bit position: the end of such an entry wraps and the whole entry is skipped. */
  lemma MappedIffNoWrap(data: seq<Byte>, targets: seq<TargetKind>, gapIsFF: bool)
    ensures var m := Load(data, targets, gapIsFF);
            var table := DecodeTable(data);
            (forall p: u64 :: Inside(m, p).Some? <==> Scan(table, p).Some? && Covers(Scan(table, p).value, p))
            <==>
            (forall e :: e in table && Scan(table, e.mapOffset) == Some(e) ==> e.mapOffset + e.length < TWO_64)
  {
    hide Inside, Scan, Load, DecodeTable;
    var m := Load(data, targets, gapIsFF);
    var table := DecodeTable(data);
    forall p: u64
      ensures Inside(m, p).Some? <==>
              (Scan(table, p).Some? && Covers(Scan(table, p).value, p) &&
               Scan(table, p).value.mapOffset + Scan(table, p).value.length < TWO_64)
    {
      ResolveReadsTable(data, targets, gapIsFF, p, 0);
    }
    forall p: u64 | Scan(table, p).Some?
      ensures var e := Scan(table, p).value; e in table && Scan(table, e.mapOffset) == Some(e) && Covers(e, e.mapOffset)
    {
      PickAtOwnStart(table, p);
    }
    forall e | e in table && Scan(table, e.mapOffset) == Some(e)
      ensures Covers(e, e.mapOffset)
    {
      PickAtOwnStart(table, e.mapOffset);
    }
  }

  lemma {:induction false} PickAtOwnStart(table: seq<MapEntry>, p: u64)
    requires Scan(table, p).Some?
    ensures var e := Scan(table, p).value; e in table && Candidate(e, p) && Scan(table, e.mapOffset) == Some(e)
  {
    var init, last := table[..|table| - 1], table[|table| - 1];
    var e := Scan(table, p).value;
    ScanFindsBest(init, e.mapOffset);
    ScanFindsBest(init, p);
    if Scan(init, p).Some? {
      PickAtOwnStart(init, p);
    }
  }

  // ---- regions hang together ----

  /** No later entry starts at the same place, so a lookup can land on entry `i`. */
  predicate Pickable(es: seq<MapEntry>, i: nat) {
    i < |es| && (i + 1 < |es| ==> es[i].mapOffset < es[i + 1].mapOffset)
  }

  /** `b` is what is left of `a` from `b`'s start on. */
  predicate Continues(m: LoadedMap, a: MapEntry, b: MapEntry)
    requires a.mapOffset <= b.mapOffset
  {
    && KindOf(m, a) == KindOf(m, b)
    && a.mapOffset + a.length == b.mapOffset + b.length
    && b.targetOffset == Wrap64(a.targetOffset + (b.mapOffset - a.mapOffset))
  }

  /** Map ends fit in 64 bits. */
  ghost predicate EndsFit(es: seq<MapEntry>) {
    forall i :: 0 <= i < |es| ==> es[i].mapOffset + es[i].length < TWO_64
  }

  ghost predicate AllNonEmpty(es: seq<MapEntry>) {
    forall i :: 0 <= i < |es| ==> es[i].length > 0
  }

  /** Where entries that a lookup can land on overlap below the end of the disk, the later one continues the earlier. */
  ghost predicate Seamless(m: LoadedMap, virtualSize: u64)
    requires Sorted(m.entries)
  {
    forall i, j {:trigger Pickable(m.entries, i), Pickable(m.entries, j)} ::
      0 <= i < j < |m.entries| && Pickable(m.entries, i) && Pickable(m.entries, j)
      && m.entries[j].mapOffset < Min(virtualSize, m.entries[i].mapOffset + m.entries[i].length)
      ==> Continues(m, m.entries[i], m.entries[j])
  }

  ghost predicate NoOverlap(es: seq<MapEntry>) {
    forall i, j :: 0 <= i < j < |es| ==> es[i].mapOffset + es[i].length <= es[j].mapOffset
  }

  function Advance(m: LoadedMap, p: u64, r: Region, k: u64): Region
    requires k < r.bytesInRegion
  {
    Region(r.kind, if Inside(m, p).Some? then Wrap64(r.targetOffset + k) else 0, r.bytesInRegion - k)
  }

  /** Resolving further into a region gives the rest of that region. */
  ghost predicate CoherentAt(m: LoadedMap, virtualSize: u64, p: u64, k: u64) {
    p + k < virtualSize && k < Resolve(m, p, virtualSize).bytesInRegion ==>
      Resolve(m, p + k, virtualSize) == Advance(m, p, Resolve(m, p, virtualSize), k)
  }

  lemma WrapAdd(a: u64, x: nat, y: nat)
    requires x + y < TWO_64
    ensures Wrap64(Wrap64(a + x) + y) == Wrap64(a + (x + y))
  {
  }

  lemma SeamlessStep(m: LoadedMap, virtualSize: u64, p: u64, k: u64, a: nat, b: nat)
    requires Sorted(m.entries) && EndsFit(m.entries) && Seamless(m, virtualSize)
    requires p + k < virtualSize && IsPoint(m.entries, p, a) && IsPoint(m.entries, p + k, b)
    requires k < RegionAt(m, a, p, virtualSize).bytesInRegion
    requires EntryAt(m, a, p).Some?
    ensures var r := RegionAt(m, a, p, virtualSize);
            RegionAt(m, b, p + k, virtualSize) == Region(r.kind, Wrap64(r.targetOffset + k), r.bytesInRegion - k)
  {
    hide KindOf;
    var es := m.entries;
    PointBefore(es, p, a, p + k, b);
    var x := es[a - 1];
    assert x.mapOffset + x.length < TWO_64;
    WrapAdd(x.targetOffset, p - x.mapOffset, k);
    if a < b {
      var y := es[b - 1];
      assert Pickable(es, a - 1) && Pickable(es, b - 1);
      assert x.mapOffset <= y.mapOffset;
      assert Continues(m, x, y);
      WrapAdd(x.targetOffset, y.mapOffset - x.mapOffset, p + k - y.mapOffset);
    }
  }

  lemma GapStep(m: LoadedMap, virtualSize: u64, p: u64, k: u64, a: nat, b: nat)
    requires Sorted(m.entries)
    requires p + k < virtualSize && IsPoint(m.entries, p, a) && IsPoint(m.entries, p + k, b)
    requires k < RegionAt(m, a, p, virtualSize).bytesInRegion
    requires EntryAt(m, a, p).None?
    ensures a == b && EntryAt(m, b, p + k).None? && RegionAt(m, a, p, virtualSize).kind == m.gapDefault
    ensures RegionAt(m, b, p + k, virtualSize)
            == Region(m.gapDefault, 0, RegionAt(m, a, p, virtualSize).bytesInRegion - k)
  {
    PointBefore(m.entries, p, a, p + k, b);
  }

  lemma SeamlessIsCoherentAt(m: LoadedMap, virtualSize: u64, p: u64, k: u64)
    requires Sorted(m.entries) && EndsFit(m.entries) && Seamless(m, virtualSize)
    ensures CoherentAt(m, virtualSize, p, k)
  {
    hide PartitionPoint, RegionAt, Sorted, EndsFit, Seamless;
    if p + k < virtualSize && k < Resolve(m, p, virtualSize).bytesInRegion {
      var a := PartitionPoint(m.entries, p, 0, |m.entries|);
      var b := PartitionPoint(m.entries, p + k, 0, |m.entries|);
      if EntryAt(m, a, p).Some? {
        SeamlessStep(m, virtualSize, p, k, a, b);
      } else {
        GapStep(m, virtualSize, p, k, a, b);
      }
    }
  }

  lemma PairContinues(m: LoadedMap, virtualSize: u64, i: nat, j: nat)
    requires EndsFit(m.entries) && AllNonEmpty(m.entries)
    requires i < j < |m.entries| && m.entries[i].mapOffset < m.entries[j].mapOffset
    requires m.entries[j].mapOffset < m.entries[i].mapOffset + m.entries[i].length
    requires var p, q := m.entries[i].mapOffset, m.entries[j].mapOffset;
             var r := RegionAt(m, i + 1, p, virtualSize);
             RegionAt(m, j + 1, q, virtualSize)
             == Region(r.kind, Wrap64(r.targetOffset + (q - p)), r.bytesInRegion - (q - p))
    ensures Continues(m, m.entries[i], m.entries[j])
  {
    var x, y := m.entries[i], m.entries[j];
    assert x.mapOffset + x.length < TWO_64 && y.mapOffset + y.length < TWO_64 && y.length > 0;
  }

  lemma CoherentPairContinues(m: LoadedMap, virtualSize: u64, i: nat, j: nat)
    requires Sorted(m.entries) && AllNonEmpty(m.entries) && EndsFit(m.entries)
    requires i < j < |m.entries| && Pickable(m.entries, i) && Pickable(m.entries, j)
    requires m.entries[j].mapOffset < Min(virtualSize, m.entries[i].mapOffset + m.entries[i].length)
    requires m.entries[i].mapOffset <= m.entries[j].mapOffset
    requires CoherentAt(m, virtualSize, m.entries[i].mapOffset, m.entries[j].mapOffset - m.entries[i].mapOffset)
    ensures Continues(m, m.entries[i], m.entries[j])
  {
    hide PartitionPoint;
    var x, y := m.entries[i], m.entries[j];
    assert x.mapOffset + x.length < TWO_64;
    assert m.entries[i + 1].mapOffset <= y.mapOffset;
    PartitionPointIs(m.entries, x.mapOffset, i + 1);
    PartitionPointIs(m.entries, y.mapOffset, j + 1);
    assert RegionAt(m, i + 1, x.mapOffset, virtualSize).bytesInRegion == x.length;
    PairContinues(m, virtualSize, i, j);
  }

  /** The regions of a loaded map hang together exactly when the map is seamless. */
  lemma CoherentIffSeamless(m: LoadedMap, virtualSize: u64)
    requires Sorted(m.entries) && AllNonEmpty(m.entries) && EndsFit(m.entries)
    ensures (forall p: u64, k: u64 :: CoherentAt(m, virtualSize, p, k)) <==> Seamless(m, virtualSize)
  {
    var es := m.entries;
    if Seamless(m, virtualSize) {
      forall p: u64, k: u64
        ensures CoherentAt(m, virtualSize, p, k)
      {
        SeamlessIsCoherentAt(m, virtualSize, p, k);
      }
    }
    if forall p: u64, k: u64 :: CoherentAt(m, virtualSize, p, k) {
      forall i, j | 0 <= i < j < |es| && Pickable(es, i) && Pickable(es, j)
          && es[j].mapOffset < Min(virtualSize, es[i].mapOffset + es[i].length)
        ensures Continues(m, es[i], es[j])
      {
        assert es[i].mapOffset <= es[j].mapOffset;
        assert CoherentAt(m, virtualSize, es[i].mapOffset, es[j].mapOffset - es[i].mapOffset);
        CoherentPairContinues(m, virtualSize, i, j);
      }
    }
  }

  /** A gap ends exactly where the next entry starts (or at the end of the disk) and nothing is mapped before that. */
  lemma GapIsMaximal(m: LoadedMap, virtualSize: u64, p: u64)
    requires Sorted(m.entries) && p < virtualSize && Inside(m, p).None?
    ensures var end := p + Resolve(m, p, virtualSize).bytesInRegion;
            && ((exists i :: 0 <= i < |m.entries| && m.entries[i].mapOffset == end)
                || (end == virtualSize && forall i :: 0 <= i < |m.entries| ==> m.entries[i].mapOffset <= p))
            && (forall i :: 0 <= i < |m.entries| ==> !(p < m.entries[i].mapOffset < end))
            && forall q: u64 :: p <= q < end ==> Inside(m, q).None?
  {
    hide PartitionPoint;
    var es := m.entries;
    var a := PartitionPoint(es, p, 0, |es|);
    var end := p + Resolve(m, p, virtualSize).bytesInRegion;
    if a < |es| {
      assert es[a].mapOffset == end;
    }
    forall i | 0 <= i < |es|
      ensures !(p < es[i].mapOffset < end)
    {
      assert i < a ==> es[i].mapOffset <= es[a - 1].mapOffset;
      assert a <= i ==> es[a].mapOffset <= es[i].mapOffset;
    }
    forall q: u64 | p <= q < end
      ensures Inside(m, q).None?
    {
      PartitionPointIs(es, q, a);
    }
  }

  // ---- a table without overlaps ----

  ghost predicate TableDisjoint(table: seq<MapEntry>) {
    forall i, j, p :: 0 <= i < j < |table| && Covers(table[i], p) ==> !Covers(table[j], p)
  }

  lemma InsertDisjoint(es: seq<MapEntry>, e: MapEntry, j: nat)
    requires NoOverlap(es) && AllNonEmpty(es) && e.length > 0 && IsPoint(es, e.mapOffset, j) && Sorted(es)
    requires forall i :: 0 <= i < |es| ==> Apart(es[i], e)
    ensures NoOverlap(es[..j] + [e] + es[j..])
  {
    forall i | 0 <= i < |es|
      ensures if i < j then es[i].mapOffset + es[i].length <= e.mapOffset else e.mapOffset + e.length <= es[i].mapOffset
    {
      assert Apart(es[i], e) && es[i].length > 0;
      assert i < j ==> es[i].mapOffset <= es[j - 1].mapOffset;
      assert j <= i ==> es[j].mapOffset <= es[i].mapOffset;
    }
    hide Sorted, Apart, AllNonEmpty, IsPoint;
    Interpose(es, e, j);
  }

  lemma Interpose(es: seq<MapEntry>, e: MapEntry, j: nat)
    requires NoOverlap(es) && j <= |es|
    requires forall i :: 0 <= i < |es| ==>
               if i < j then es[i].mapOffset + es[i].length <= e.mapOffset
               else e.mapOffset + e.length <= es[i].mapOffset
    ensures NoOverlap(es[..j] + [e] + es[j..])
  {
  }

  predicate Apart(x: MapEntry, y: MapEntry) {
    x.mapOffset + x.length <= y.mapOffset || y.mapOffset + y.length <= x.mapOffset
  }

  lemma {:induction false} SortedMembers(table: seq<MapEntry>)
    ensures forall x :: x in StableSort(NonEmpty(table)) ==> x in table && x.length > 0
  {
    if table != [] {
      var init, e := table[..|table| - 1], table[|table| - 1];
      SortedMembers(init);
      assert table == init + [e];
      if e.length > 0 {
        SortSnoc(NonEmpty(init), e);
        StableSortCorrect(NonEmpty(init));
        InsertSorted(StableSort(NonEmpty(init)), e);
        assert NonEmpty(table) == NonEmpty(init) + [e];
      } else {
        assert NonEmpty(table) == NonEmpty(init);
      }
      assert forall x :: x in init || x == e ==> x in table;
    }
  }

  lemma {:induction false} DisjointTableSorts(table: seq<MapEntry>)
    requires TableDisjoint(table)
    ensures NoOverlap(StableSort(NonEmpty(table)))
  {
    if table != [] {
      var init, e := table[..|table| - 1], table[|table| - 1];
      assert forall i :: 0 <= i < |init| ==> init[i] == table[i];
      DisjointTableSorts(init);
      if e.length > 0 {
        SortSnoc(NonEmpty(init), e);
        DisjointInsert(table, init, e);
        assert NonEmpty(table) == NonEmpty(init) + [e];
      } else {
        assert NonEmpty(table) == NonEmpty(init);
      }
    }
  }

  lemma DisjointInsert(table: seq<MapEntry>, init: seq<MapEntry>, e: MapEntry)
    requires TableDisjoint(table) && table == init + [e] && e.length > 0
    requires NoOverlap(StableSort(NonEmpty(init)))
    ensures NoOverlap(InsertStable(StableSort(NonEmpty(init)), e))
  {
    hide StableSort, NonEmpty, InsertStable;
    var es := StableSort(NonEmpty(init));
    StableSortCorrect(NonEmpty(init));
    SortedMembers(init);
    forall k | 0 <= k < |es|
      ensures Apart(es[k], e) && es[k].length > 0
    {
      assert es[k] in es;
      var i :| 0 <= i < |init| && init[i] == es[k];
      assert table[i] == es[k] && table[|init|] == e;
      var p := Max(es[k].mapOffset, e.mapOffset);
      assert Covers(table[i], p) ==> !Covers(table[|init|], p);
    }
    var j := InsertionIndex(es, e);
    InsertDisjoint(es, e, j);
  }

  lemma InsertionIndex(es: seq<MapEntry>, e: MapEntry) returns (j: nat)
    requires Sorted(es)
    ensures IsPoint(es, e.mapOffset, j)
    ensures InsertStable(es, e) == es[..j] + [e] + es[j..]
  {
    hide PartitionPoint;
    j := PartitionPoint(es, e.mapOffset, 0, |es|);
    assert forall k :: j <= k < |es| ==> es[j].mapOffset <= es[k].mapOffset;
    InsertionPoint(es, e, j);
  }

  /** Whatever the table, the loaded entries are sorted and none is empty. */
  lemma LoadedShape(data: seq<Byte>)
    ensures Sorted(SortedEntries(data)) && AllNonEmpty(SortedEntries(data))
    ensures forall e :: e in SortedEntries(data) ==> e in DecodeTable(data)
  {
    SortedMembers(DecodeTable(data));
    StableSortCorrect(NonEmpty(DecodeTable(data)));
    var es := SortedEntries(data);
    assert forall k :: 0 <= k < |es| ==> es[k] in es;
  }

  /** Non-overlapping tables give seamless maps. */
  lemma DisjointTableIsSeamless(data: seq<Byte>, targets: seq<TargetKind>, gapIsFF: bool, virtualSize: u64)
    requires TableDisjoint(DecodeTable(data))
    ensures var m := Load(data, targets, gapIsFF);
            Sorted(m.entries) && AllNonEmpty(m.entries) && NoOverlap(m.entries) && Seamless(m, virtualSize)
  {
    LoadedShape(data);
    DisjointTableSorts(DecodeTable(data));
  }

  // ---- unreadable regions ----

  function RegionEnd(r: (u64, u64)): nat {
    r.0 + r.1
  }

  predicate InRegion(r: (u64, u64), p: u64) {
    r.0 <= p < RegionEnd(r)
  }

  lemma {:induction false} EntryIsReported(m: LoadedMap, es: seq<MapEntry>, i: nat)
    requires i < |es| && KindOf(m, es[i]) == Tiled(UnreadableData)
    ensures (es[i].mapOffset, es[i].length) in RegionsOf(m, es)
  {
    if i > 0 {
      EntryIsReported(m, es[1..], i - 1);
    }
  }

  lemma {:induction false} ReportedIsEntry(m: LoadedMap, es: seq<MapEntry>, r: (u64, u64)) returns (i: nat)
    requires r in RegionsOf(m, es)
    ensures i < |es| && KindOf(m, es[i]) == Tiled(UnreadableData) && r == (es[i].mapOffset, es[i].length)
  {
    if KindOf(m, es[0]) == Tiled(UnreadableData) && r == (es[0].mapOffset, es[0].length) {
      i := 0;
    } else {
      var k := ReportedIsEntry(m, es[1..], r);
      i := k + 1;
    }
  }

  lemma UnreadableIsReported(m: LoadedMap, virtualSize: u64, p: u64)
    requires EndsFit(m.entries) && m.gapDefault.Filled?
    requires Resolve(m, p, virtualSize).kind == Tiled(UnreadableData)
    ensures exists r :: r in UnreadableRegions(m) && InRegion(r, p)
  {
    hide PartitionPoint;
    var a := PartitionPoint(m.entries, p, 0, |m.entries|);
    var e := m.entries[a - 1];
    assert e.mapOffset + e.length < TWO_64;
    EntryIsReported(m, m.entries, a - 1);
    assert InRegion((e.mapOffset, e.length), p);
  }

  lemma ReportedIsUnreadable(m: LoadedMap, virtualSize: u64, p: u64, r: (u64, u64))
    requires Sorted(m.entries) && EndsFit(m.entries) && NoOverlap(m.entries)
    requires r in UnreadableRegions(m) && InRegion(r, p)
    ensures Resolve(m, p, virtualSize).kind == Tiled(UnreadableData)
  {
    hide PartitionPoint;
    var es := m.entries;
    var i := ReportedIsEntry(m, es, r);
    assert es[i].mapOffset + es[i].length < TWO_64;
    assert i + 1 < |es| ==> es[i].mapOffset + es[i].length <= es[i + 1].mapOffset;
    PartitionPointIs(es, p, i + 1);
  }

  /** A position reads as unreadable data exactly when it lies in a reported region. */
  lemma UnreadableExactly(m: LoadedMap, virtualSize: u64, p: u64)
    requires Sorted(m.entries) && EndsFit(m.entries) && NoOverlap(m.entries)
    requires m.gapDefault.Filled?
    ensures Resolve(m, p, virtualSize).kind == Tiled(UnreadableData) <==>
            exists r :: r in UnreadableRegions(m) && InRegion(r, p)
  {
    hide Resolve, UnreadableRegions, InRegion, Sorted, EndsFit, NoOverlap;
    if Resolve(m, p, virtualSize).kind == Tiled(UnreadableData) {
      UnreadableIsReported(m, virtualSize, p);
    }
    if r :| r in UnreadableRegions(m) && InRegion(r, p) {
      ReportedIsUnreadable(m, virtualSize, p, r);
    }
  }

  /** Reported regions come sorted and pairwise disjoint. */
  lemma {:induction false} RegionsDisjoint(m: LoadedMap, es: seq<MapEntry>)
    requires NoOverlap(es)
    ensures Ordered(RegionsOf(m, es))
  {
    hide Ordered;
    if es == [] {
      OrderedNone();
    } else {
      RegionsDisjoint(m, es[1..]);
      var rest := RegionsOf(m, es[1..]);
      forall j | 0 <= j < |rest|
        ensures es[0].mapOffset + es[0].length <= rest[j].0
      {
        var i := ReportedIsEntry(m, es[1..], rest[j]);
        assert es[i + 1] == es[1..][i];
      }
      OrderedCons((es[0].mapOffset, es[0].length), rest);
      assert [] + rest == rest;
    }
  }

  ghost predicate Ordered(rs: seq<(u64, u64)>) {
    forall i, j :: 0 <= i < j < |rs| ==> RegionEnd(rs[i]) <= rs[j].0
  }

  lemma OrderedNone()
    ensures Ordered([])
  {
  }

  lemma OrderedCons(r: (u64, u64), rest: seq<(u64, u64)>)
    requires Ordered(rest) && forall j :: 0 <= j < |rest| ==> RegionEnd(r) <= rest[j].0
    ensures Ordered([r] + rest)
  {
  }
}
