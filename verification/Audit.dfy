/** The integrity audit: one pass over the content feeds every recomputable digest. */
module Audit {
  import opened Prelude
  import opened MapTable
  import opened Resolution
  import opened ChunkStore
  import opened VirtualDisk
  import opened Digest
  import opened Reader
  import HashList
  import Hex
  import Writer

  datatype Anomaly =
    | HashMismatch(algorithm: string, stored: string, computed: string)
    | HashUnreadable(offset: u64, length: u64)

  /** The stored hashes this build can recompute, in declaration order. */
  function Recognised(hashes: seq<StoredHash>): (ds: seq<(StoredHash, Algorithm)>)
    ensures forall i :: 0 <= i < |ds| ==> ForAlgorithm(ds[i].0.algorithm) == Some(ds[i].1)
  {
    if hashes == [] then []
    else
      match ForAlgorithm(hashes[0].algorithm)
      case Some(a) => [(hashes[0], a)] + Recognised(hashes[1..])
      case None => Recognised(hashes[1..])
  }

  function Regions(im: Image): seq<(u64, u64)> {
    match im.loadedMap
    case Some(m) => UnreadableRegions(m)
    case None => []
  }

  function Unreadable(regions: seq<(u64, u64)>): (s: seq<Anomaly>)
    ensures |s| == |regions|
  {
    seq(|regions|, i requires 0 <= i < |regions| => HashUnreadable(regions[i].0, regions[i].1))
  }

  function Mismatches(ds: seq<(StoredHash, Algorithm)>, content: seq<Byte>, digest: DigestFunction): seq<Anomaly> {
    if ds == [] then []
    else
      var (stored, algorithm) := ds[0];
      var computed := Hex.ToHex(digest(algorithm, content));
      (if computed != stored.hex then [HashMismatch(stored.algorithm, stored.hex, computed)] else [])
      + Mismatches(ds[1..], content, digest)
  }

  /** What the audit returns, in terms of the traversal of the content. */
  function AuditResult(im: Image, hashes: seq<StoredHash>, digest: DigestFunction): Result<seq<Anomaly>, Error> {
    var caveats := Unreadable(Regions(im));
    if Recognised(hashes) == [] then Ok(caveats)
    else
      var fed := Slices(im.store, im.imageStreamSize, 0, 0);
      match fed.1
      case Some(e) => Err(e)
      case None => Ok(caveats + Mismatches(Recognised(hashes), Concat(fed.0), digest))
  }

  /** `verify_image_hashes` */
  method VerifyImageHashes(reader: Aff4Reader, digest: DigestFunction) returns (r: Result<seq<Anomaly>, Error>)
    ensures r == AuditResult(reader.image, reader.imageHashes, digest)
  {
    hide Slices, Recognised, Mismatches, UnreadableRegions;
    var anomalies: seq<Anomaly> := [];
    var regions := Regions(reader.image);
    for i := 0 to |regions|
      invariant anomalies == Unreadable(regions)[..i]
    {
      anomalies := anomalies + [HashUnreadable(regions[i].0, regions[i].1)];
    }
    ghost var caveats := Unreadable(regions);
    assert anomalies == caveats;
    var recognised := Recognised(reader.imageHashes);
    if recognised == [] {
      return Ok(anomalies);
    }
    var jobs := new Job[|recognised|](i requires 0 <= i < |recognised| =>
      Job(recognised[i].0, Hasher(recognised[i].1, [])));
    var sink := new Sink(jobs);
    assert sink.Declared() == recognised;
    var failure := reader.ReadImageStreamContent(sink);
    if failure.Some? {
      return Err(failure.value);
    }
    ghost var slices := Slices(reader.image.store, reader.image.imageStreamSize, 0, 0).0;
    ghost var content := Concat(slices);
    assert sink.slices == [] + slices == slices;
    for i := 0 to |recognised|
      invariant sink.jobs == jobs && sink.Fed() && sink.slices == slices && sink.Declared() == recognised
      invariant caveats + Mismatches(recognised, content, digest)
             == anomalies + Mismatches(recognised[i..], content, digest)
    {
      var job := jobs[i];
      assert recognised[i] == sink.Declared()[i] == (job.stored, job.hasher.algorithm);
      assert job.hasher.fed == content;
      var computed := Hex.ToHex(digest(job.hasher.algorithm, job.hasher.fed));
      MismatchStep(recognised, i, content, digest);
      ghost var rest := Mismatches(recognised[i + 1..], content, digest);
      if computed != job.stored.hex {
        var found := HashMismatch(job.stored.algorithm, job.stored.hex, computed);
        assert anomalies + ([found] + rest) == anomalies + [found] + rest;
        anomalies := anomalies + [found];
      } else {
        assert [] + rest == rest;
      }
    }
    NoMismatches(recognised, content, digest);
    assert anomalies + [] == anomalies;
    return Ok(anomalies);
  }

  lemma MismatchStep(ds: seq<(StoredHash, Algorithm)>, i: nat, content: seq<Byte>, digest: DigestFunction)
    requires i < |ds|
    ensures var (stored, algorithm) := ds[i];
            var computed := Hex.ToHex(digest(algorithm, content));
            Mismatches(ds[i..], content, digest) ==
            (if computed != stored.hex then [HashMismatch(stored.algorithm, stored.hex, computed)] else [])
            + Mismatches(ds[i + 1..], content, digest)
  {
    assert ds[i..][1..] == ds[i + 1..];
  }

  lemma NoMismatches(ds: seq<(StoredHash, Algorithm)>, content: seq<Byte>, digest: DigestFunction)
    ensures Mismatches(ds[|ds|..], content, digest) == []
  {
  }

  // ---- what the findings mean ----

  /** The digest of the content under the algorithm a stored hash names, if this build has it. */
  function Computed(h: StoredHash, content: seq<Byte>, digest: DigestFunction): Option<string> {
    match ForAlgorithm(h.algorithm)
    case Some(a) => Some(Hex.ToHex(digest(a, content)))
    case None => None
  }

  /** A stored hash that can be recomputed and does not agree with the content. */
  predicate Disagrees(h: StoredHash, content: seq<Byte>, digest: DigestFunction) {
    var computed := Computed(h, content, digest);
    computed.Some? && computed.value != h.hex
  }

  /** The finding about a stored hash. */
  predicate Reports(found: Anomaly, h: StoredHash, content: seq<Byte>, digest: DigestFunction) {
    var computed := Computed(h, content, digest);
    computed.Some? && found == HashMismatch(h.algorithm, h.hex, computed.value)
  }

  /** `places` lists where the stored hashes from `from` on disagree: all such places, in declaration order, once
      each. */
  ghost predicate DisagreeAt(hashes: seq<StoredHash>, content: seq<Byte>, digest: DigestFunction, from: nat,
                             places: seq<nat>)
  {
    && (forall k :: 0 <= k < |places| ==> from <= places[k] < |hashes| && Disagrees(hashes[places[k]], content, digest))
    && (forall k, l :: 0 <= k < l < |places| ==> places[k] < places[l])
    && (forall i :: from <= i < |hashes| && Disagrees(hashes[i], content, digest) ==> i in places)
  }

  /** One report for each of those places, in the same order. */
  ghost predicate ReportsAt(found: seq<Anomaly>, hashes: seq<StoredHash>, content: seq<Byte>, digest: DigestFunction,
                            places: seq<nat>)
  {
    |found| == |places| &&
    forall k :: 0 <= k < |places| ==> places[k] < |hashes| && Reports(found[k], hashes[places[k]], content, digest)
  }

  /** One stored hash's share of the mismatches. */
  lemma MismatchesStep(hashes: seq<StoredHash>, content: seq<Byte>, digest: DigestFunction, from: nat)
    returns (found: Anomaly)
    requires from < |hashes|
    ensures var rest := Mismatches(Recognised(hashes[from + 1..]), content, digest);
            Mismatches(Recognised(hashes[from..]), content, digest) ==
            if Disagrees(hashes[from], content, digest) then [found] + rest else rest
    ensures Disagrees(hashes[from], content, digest) ==> Reports(found, hashes[from], content, digest)
  {
    hide ForAlgorithm;
    assert hashes[from..][1..] == hashes[from + 1..];
    var h := hashes[from];
    var rest := Recognised(hashes[from + 1..]);
    if ForAlgorithm(h.algorithm).Some? {
      var a := ForAlgorithm(h.algorithm).value;
      found := HashMismatch(h.algorithm, h.hex, Hex.ToHex(digest(a, content)));
      var ds := [(h, a)] + rest;
      assert Recognised(hashes[from..]) == ds && ds[1..] == rest && ds[0] == (h, a);
      assert [] + Mismatches(rest, content, digest) == Mismatches(rest, content, digest);
    } else {
      found := HashMismatch("", "", "");
    }
  }

  lemma PlacesFirst(hashes: seq<StoredHash>, content: seq<Byte>, digest: DigestFunction, from: nat, rest: seq<nat>)
    requires from < |hashes| && DisagreeAt(hashes, content, digest, from + 1, rest)
    ensures Disagrees(hashes[from], content, digest) ==> DisagreeAt(hashes, content, digest, from, [from] + rest)
    ensures !Disagrees(hashes[from], content, digest) ==> DisagreeAt(hashes, content, digest, from, rest)
  {
    hide Disagrees;
    assert from in [from] + rest;
  }

  lemma ReportFirst(first: Anomaly, found: seq<Anomaly>, hashes: seq<StoredHash>, content: seq<Byte>,
                    digest: DigestFunction, from: nat, places: seq<nat>)
    requires from < |hashes| && Reports(first, hashes[from], content, digest)
    requires ReportsAt(found, hashes, content, digest, places)
    ensures ReportsAt([first] + found, hashes, content, digest, [from] + places)
  {
    hide Reports;
  }

  lemma NothingAt(hashes: seq<StoredHash>, content: seq<Byte>, digest: DigestFunction)
    ensures DisagreeAt(hashes, content, digest, |hashes|, []) && ReportsAt([], hashes, content, digest, [])
    ensures Mismatches(Recognised(hashes[|hashes|..]), content, digest) == []
  {
  }

  /** The mismatches are one report a disagreeing hash, in order. */
  lemma {:induction false} MismatchPlaces(hashes: seq<StoredHash>, content: seq<Byte>, digest: DigestFunction,
                                          from: nat)
    returns (places: seq<nat>)
    requires from <= |hashes|
    ensures DisagreeAt(hashes, content, digest, from, places)
    ensures ReportsAt(Mismatches(Recognised(hashes[from..]), content, digest), hashes, content, digest, places)
    decreases |hashes| - from
  {
    hide Disagrees, Reports, Mismatches, Recognised, DisagreeAt, ReportsAt;
    if from == |hashes| {
      NothingAt(hashes, content, digest);
      places := [];
    } else {
      var rest := MismatchPlaces(hashes, content, digest, from + 1);
      var first := MismatchesStep(hashes, content, digest, from);
      PlacesFirst(hashes, content, digest, from, rest);
      if Disagrees(hashes[from], content, digest) {
        var found := Mismatches(Recognised(hashes[from + 1..]), content, digest);
        ReportFirst(first, found, hashes, content, digest, from, rest);
        places := [from] + rest;
      } else {
        places := rest;
      }
    }
  }

  // ---- unreadable data ----

  predicate UnreadableEntry(m: LoadedMap, i: nat)
    requires i < |m.entries|
  {
    var id := m.entries[i].targetId;
    id < |m.targets| && m.targets[id] == Tiled(UnreadableData)
  }

  /** `places` lists the map entries from `from` on that point at unreadable data: all of them, in map order, once
      each. */
  ghost predicate UnreadableFrom(m: LoadedMap, from: nat, places: seq<nat>) {
    && (forall k :: 0 <= k < |places| ==> from <= places[k] < |m.entries| && UnreadableEntry(m, places[k]))
    && (forall k, l :: 0 <= k < l < |places| ==> places[k] < places[l])
    && (forall i :: from <= i < |m.entries| && UnreadableEntry(m, i) ==> i in places)
  }

  ghost predicate RegionsAt(m: LoadedMap, rs: seq<(u64, u64)>, places: seq<nat>) {
    |rs| == |places| &&
    forall k :: 0 <= k < |places| ==>
      places[k] < |m.entries| && rs[k] == (m.entries[places[k]].mapOffset, m.entries[places[k]].length)
  }

  /** One finding for each of those entries: its offset on the disk and its length. A direct image has none. */
  ghost predicate UnreadableAt(im: Image, found: seq<Anomaly>, places: seq<nat>) {
    match im.loadedMap
    case None => found == []
    case Some(m) =>
      && UnreadableFrom(m, 0, places)
      && |found| == |places|
      && forall k :: 0 <= k < |places| ==>
           found[k] == HashUnreadable(m.entries[places[k]].mapOffset, m.entries[places[k]].length)
  }

  lemma UnreadableFirst(m: LoadedMap, from: nat, rest: seq<nat>)
    requires from < |m.entries| && UnreadableFrom(m, from + 1, rest)
    ensures UnreadableFrom(m, from, if UnreadableEntry(m, from) then [from] + rest else rest)
  {
    hide UnreadableEntry;
    assert from in [from] + rest;
  }

  lemma RegionsStep(m: LoadedMap, from: nat)
    requires from < |m.entries|
    ensures var e := m.entries[from];
            var rest := RegionsOf(m, m.entries[from + 1..]);
            RegionsOf(m, m.entries[from..]) ==
            if UnreadableEntry(m, from) then [(e.mapOffset, e.length)] + rest else rest
  {
    var es := m.entries[from..];
    assert es[1..] == m.entries[from + 1..] && es[0] == m.entries[from];
    assert [] + RegionsOf(m, es[1..]) == RegionsOf(m, es[1..]);
  }

  lemma RegionsFirst(m: LoadedMap, from: nat, rest: seq<nat>)
    requires from < |m.entries| && RegionsAt(m, RegionsOf(m, m.entries[from + 1..]), rest)
    ensures RegionsAt(m, RegionsOf(m, m.entries[from..]), if UnreadableEntry(m, from) then [from] + rest else rest)
  {
    hide UnreadableEntry, RegionsOf;
    RegionsStep(m, from);
  }

  lemma {:induction false} RegionPlaces(m: LoadedMap, from: nat) returns (places: seq<nat>)
    requires from <= |m.entries|
    ensures UnreadableFrom(m, from, places) && RegionsAt(m, RegionsOf(m, m.entries[from..]), places)
    decreases |m.entries| - from
  {
    if from == |m.entries| {
      places := [];
    } else {
      hide UnreadableEntry, UnreadableFrom, RegionsAt, RegionsOf;
      var rest := RegionPlaces(m, from + 1);
      UnreadableFirst(m, from, rest);
      RegionsFirst(m, from, rest);
      places := if UnreadableEntry(m, from) then [from] + rest else rest;
    }
  }

  lemma UnreadablePlaces(im: Image) returns (places: seq<nat>)
    ensures UnreadableAt(im, Unreadable(Regions(im)), places)
  {
    hide UnreadableFrom, UnreadableEntry, RegionsOf;
    places := [];
    if im.loadedMap.Some? {
      var m := im.loadedMap.value;
      places := RegionPlaces(m, 0);
      assert m.entries[0..] == m.entries;
    }
  }

  /** A finding covers a position of the disk. */
  predicate CoversPosition(found: Anomaly, p: u64) {
    found.HashUnreadable? && found.offset <= p < found.offset + found.length
  }

  /** Entry `i` points at unreadable data and contains `p`. */
  predicate UnreadableThere(m: LoadedMap, i: nat, p: u64) {
    i < |m.entries| && UnreadableEntry(m, i) && Covers(m.entries[i], p)
  }

  lemma FindingsAreEntries(im: Image, found: seq<Anomaly>, places: seq<nat>, p: u64)
    requires im.loadedMap.Some? && UnreadableAt(im, found, places)
    ensures (exists f :: f in found && CoversPosition(f, p)) <==>
            exists i: nat :: UnreadableThere(im.loadedMap.value, i, p)
  {
    hide UnreadableEntry;
    var m := im.loadedMap.value;
    if f :| f in found && CoversPosition(f, p) {
      var k :| 0 <= k < |found| && found[k] == f;
      assert UnreadableThere(m, places[k], p);
    }
    if i: nat :| UnreadableThere(m, i, p) {
      var k :| 0 <= k < |places| && places[k] == i;
      assert found[k] in found && CoversPosition(found[k], p);
    }
  }

  /** Where entries do not overlap, a position reads as unreadable data exactly when some finding covers it. */
  lemma FindingsCover(im: Image, found: seq<Anomaly>, places: seq<nat>, p: u64)
    requires im.loadedMap.Some? && UnreadableAt(im, found, places)
    requires var m := im.loadedMap.value;
             Sorted(m.entries) && EndsFit(m.entries) && NoOverlap(m.entries) && m.gapDefault.Filled?
    ensures Resolve(im.loadedMap.value, p, im.virtualSize).kind == Tiled(UnreadableData) <==>
            exists f :: f in found && CoversPosition(f, p)
  {
    hide Resolve, Sorted, EndsFit, NoOverlap, UnreadableAt, UnreadableEntry, CoversPosition, RegionsOf;
    var m := im.loadedMap.value;
    UnreadableExactly(m, im.virtualSize, p);
    FindingsAreEntries(im, found, places, p);
    RegionsAreEntries(m, p);
  }

  lemma RegionsAreEntries(m: LoadedMap, p: u64)
    ensures (exists r :: r in UnreadableRegions(m) && InRegion(r, p)) <==> exists i: nat :: UnreadableThere(m, i, p)
  {
    hide UnreadableEntry, RegionsOf;
    var places := RegionPlaces(m, 0);
    assert m.entries[0..] == m.entries;
    var rs := UnreadableRegions(m);
    if r :| r in rs && InRegion(r, p) {
      var k :| 0 <= k < |rs| && rs[k] == r;
      assert UnreadableThere(m, places[k], p);
    }
    if i: nat :| UnreadableThere(m, i, p) {
      var k :| 0 <= k < |places| && places[k] == i;
      assert rs[k] in rs && InRegion(rs[k], p);
    }
  }

  // ---- the whole audit ----

  /** Some stored hash names an algorithm this build has. */
  predicate SomeRecognised(hashes: seq<StoredHash>) {
    exists i :: 0 <= i < |hashes| && ForAlgorithm(hashes[i].algorithm).Some?
  }

  lemma {:induction false} RecognisedIffSome(hashes: seq<StoredHash>)
    ensures Recognised(hashes) != [] <==> SomeRecognised(hashes)
  {
    hide ForAlgorithm;
    if hashes != [] {
      RecognisedIffSome(hashes[1..]);
      assert forall i :: 1 <= i < |hashes| ==> hashes[i] == hashes[1..][i - 1];
    }
  }

  /** On any archive: the audit fails exactly when some stored hash is recognised, so that the content is read, and some
      chunk of the stream cannot be read; the error is the first such chunk's. */
  lemma AuditFailsIff(im: Image, hashes: seq<StoredHash>, digest: DigestFunction)
    ensures var r := AuditResult(im, hashes, digest);
            var chunks := Pieces(im.imageStreamSize, im.store.chunkSize);
            && (r.Err? <==> SomeRecognised(hashes) && exists j: u64 :: j < chunks && ReadChunk(im.store, j).Err?)
            && (r.Err? ==> exists j: u64 :: j < chunks && ReadChunk(im.store, j) == Err(r.error)
                             && forall i: u64 :: i < j ==> ReadChunk(im.store, i).Ok?)
  {
    hide Slices, Pieces, ReadChunk, SomeRecognised, Mismatches;
    RecognisedIffSome(hashes);
    TraversalFailsIff(im.store, im.imageStreamSize, 0, 0);
    var failure := Slices(im.store, im.imageStreamSize, 0, 0).1;
    if failure.Some? {
      var j: u64 :| j < Pieces(im.imageStreamSize, im.store.chunkSize) && ReadChunk(im.store, j) == Err(failure.value)
                    && forall i: u64 :: 0 <= i < j ==> ReadChunk(im.store, i).Ok?;
    }
  }

  /** What a successful audit returns, whatever the archive: one finding for each unreadable map entry, in map
      order, then one mismatch, in declaration order, for precisely the recognised stored hashes that disagree with
      what one traversal hands over. */
  lemma AuditFindings(im: Image, hashes: seq<StoredHash>, digest: DigestFunction)
    returns (caveats: seq<Anomaly>, regions: seq<nat>, found: seq<Anomaly>, places: seq<nat>)
    requires AuditResult(im, hashes, digest).Ok?
    ensures AuditResult(im, hashes, digest) == Ok(caveats + found)
    ensures UnreadableAt(im, caveats, regions)
    ensures var content := Concat(Slices(im.store, im.imageStreamSize, 0, 0).0);
            DisagreeAt(hashes, content, digest, 0, places) && ReportsAt(found, hashes, content, digest, places)
  {
    hide Slices, Regions, Disagrees, Reports, Recognised, UnreadableAt;
    regions := UnreadablePlaces(im);
    caveats := Unreadable(Regions(im));
    var content := Concat(Slices(im.store, im.imageStreamSize, 0, 0).0);
    places := MismatchPlaces(hashes, content, digest, 0);
    assert hashes[0..] == hashes;
    found := Mismatches(Recognised(hashes), content, digest);
    assert caveats + [] == caveats;
  }

  /** Audit exactness: on a well-chunked stream the audit succeeds, and what one traversal hands over is the whole
      content. */
  lemma AuditExact(c: Container, hashes: seq<StoredHash>, digest: DigestFunction)
    returns (caveats: seq<Anomaly>, regions: seq<nat>, found: seq<Anomaly>, places: seq<nat>)
    requires WellChunked(c.store, c.imageStreamSize)
    ensures AuditResult(Open(c), hashes, digest) == Ok(caveats + found)
    ensures UnreadableAt(Open(c), caveats, regions)
    ensures var content := StreamBytes(c.store, 0, c.imageStreamSize);
            DisagreeAt(hashes, content, digest, 0, places) && ReportsAt(found, hashes, content, digest, places)
  {
    hide Slices, StreamByte, Regions, Disagrees, Reports, Mismatches, Recognised, UnreadableAt, DisagreeAt, ReportsAt;
    PieceNext(0, c.store.chunkSize);
    SlicesAreContent(c.store, c.imageStreamSize, 0, 0);
    caveats, regions, found, places := AuditFindings(Open(c), hashes, digest);
  }

  /** The audit is silent exactly when no map entry points at unreadable data and every recomputable hash agrees. */
  lemma SilentIff(c: Container, hashes: seq<StoredHash>, digest: DigestFunction)
    requires WellChunked(c.store, c.imageStreamSize)
    ensures AuditResult(Open(c), hashes, digest) == Ok([]) <==>
            && (c.mapped.Some? ==>
                  var m := Open(c).loadedMap.value; forall i :: 0 <= i < |m.entries| ==> !UnreadableEntry(m, i))
            && forall i :: 0 <= i < |hashes| ==>
                 !Disagrees(hashes[i], StreamBytes(c.store, 0, c.imageStreamSize), digest)
  {
    hide AuditResult, Load, StreamByte, Disagrees, Reports, UnreadableEntry;
    var caveats, regions, found, places := AuditExact(c, hashes, digest);
    var content := StreamBytes(c.store, 0, c.imageStreamSize);
    assert |caveats + found| == |caveats| + |found|;
    if places != [] {
      assert Disagrees(hashes[places[0]], content, digest);
    }
    if c.mapped.Some? && regions != [] {
      assert UnreadableEntry(Open(c).loadedMap.value, regions[0]);
    }
  }

  /** The case of the stored digits never matters: a parsed hash disagrees exactly when the bytes its digits spell
      do. */
  lemma ParsedHashDisagreesIff(t: HashList.Term, content: seq<Byte>, digest: DigestFunction)
    requires HashList.Writable(t)
    ensures Disagrees(HashList.Meant(t), content, digest) <==>
            ForAlgorithm(t.algorithm).Some? &&
            Hex.DecodeHex(t.hex) != Some(digest(ForAlgorithm(t.algorithm).value, content))
  {
    hide ForAlgorithm;
    if ForAlgorithm(t.algorithm).Some? {
      Hex.CompareHex(t.hex, digest(ForAlgorithm(t.algorithm).value, content));
    }
  }

  /** From writer to verdict: a direct image whose metadata declares a list of digests, in any case and with any commas,
      audits clean exactly when every recomputable one spells the digest of the content that was written. */
  lemma WrittenImageAudits(c: Container, content: seq<Byte>, coder: Writer.Coder, parts: seq<HashList.Part>,
                           digest: DigestFunction)
    requires Writer.WrittenBy(c.store, content, coder) && c.imageStreamSize == |content| && c.mapped.None?
    requires HashList.Printable(parts)
    ensures AuditResult(Open(c), HashList.Hashes(HashList.Print(parts)), digest) == Ok([]) <==>
            forall t :: t in HashList.TermsOf(parts) && ForAlgorithm(t.algorithm).Some? ==>
              Hex.DecodeHex(t.hex) == Some(digest(ForAlgorithm(t.algorithm).value, content))
  {
    hide ForAlgorithm, AuditResult, Disagrees, Slices, Writer.WrittenBy;
    hide HashList.Writable, HashList.Printable, HashList.Hashes;
    Writer.WrittenStoreReads(c.store, content, coder);
    HashList.PrintScan(parts);
    HashList.MeantIsTerms(parts);
    var hashes := HashList.MeantParts(parts);
    var terms := HashList.TermsOf(parts);
    SilentIff(c, hashes, digest);
    forall i | 0 <= i < |terms|
      ensures Disagrees(hashes[i], content, digest) <==>
              ForAlgorithm(terms[i].algorithm).Some? &&
              Hex.DecodeHex(terms[i].hex) != Some(digest(ForAlgorithm(terms[i].algorithm).value, content))
    {
      ParsedHashDisagreesIff(terms[i], content, digest);
    }
  }
}
