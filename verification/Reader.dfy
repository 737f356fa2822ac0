/** The disk reader as a mutable cursor, and the image source built on it. */
module Reader {
  import opened Prelude
  import opened MapTable
  import opened ChunkStore
  import opened VirtualDisk
  import opened Runs
  import opened Digest

  class Aff4Reader {
    const image: Image
    const imageHashes: seq<StoredHash>
    var pos: u64
    ghost const container: Container

    /** The fields are what opening the container gives. */
    ghost predicate Valid() {
      image == Open(container)
    }

    constructor OpenReader(c: Container, hashes: seq<StoredHash>)
      ensures Valid() && container == c && imageHashes == hashes && pos == 0
    {
      var loaded: Option<LoadedMap> := None;
      var virtualSize := c.imageStreamSize;
      if c.mapped.Some? {
        var ms := c.mapped.value;
        var entries := ParseMapEntries(ms.data);
        loaded := Some(LoadedMap(entries, ms.targets, if ms.gapIsFF then Filled(0xFF) else Filled(0x00)));
        virtualSize := ms.size;
      }
      image := Image(c.store, virtualSize, c.imageStreamSize, loaded);
      imageHashes := hashes;
      container := c;
      pos := 0;
    }

    /** `read` into `buf[lo..hi]`: what it returns, where the cursor ends up, and every byte of the buffer. */
    method Read(buf: array<Byte>, lo: nat, hi: nat) returns (r: Result<nat, Error>)
      requires lo <= hi <= buf.Length
      modifies this`pos, buf
      ensures match ReadBytes(image, old(pos), hi - lo)
              case Err(e) => r == Err(e) && pos == old(pos) && buf[..] == old(buf[..])
              case Ok(bytes) =>
                && r == Ok(|bytes|) && pos == old(pos) + |bytes|
                && buf[..] == Spliced(old(buf[..]), lo, bytes)
      ensures lo == hi || old(pos) >= image.virtualSize ==> r == Ok(0) && pos == old(pos) && buf[..] == old(buf[..])
    {
      hide Lookup, ReadChunk, PieceOf, Within, Spliced;
      SplicedNothing(buf[..], lo);
      if lo == hi || pos >= image.virtualSize {
        return Ok(0);
      }
      var toRead := Min(hi - lo, image.virtualSize - pos);
      var region := Lookup(image, pos);
      match region.kind {
        case Unrecognised =>
          var n := Min(toRead, region.bytesInRegion);
          FillSlice(buf, lo, n, 0);
          pos := pos + n;
          return Ok(n);
        case Filled(value) =>
          var n := Min(toRead, region.bytesInRegion);
          FillSlice(buf, lo, n, value);
          pos := pos + n;
          return Ok(n);
        case Tiled(tile) =>
          var n := Min(toRead, region.bytesInRegion);
          TileSlice(buf, lo, n, tile, region.targetOffset);
          pos := pos + n;
          return Ok(n);
        case ImageStream =>
          var chunkIdx := PieceOf(region.targetOffset, image.store.chunkSize);
          var offsetInChunk := Within(region.targetOffset, image.store.chunkSize);
          var chunk := ReadChunk(image.store, chunkIdx);
          if chunk.Err? {
            return Err(chunk.error);
          }
          var available := Min(Max(|chunk.value| - offsetInChunk, 0), region.bytesInRegion);
          var n := Min(toRead, available);
          if n == 0 {
            return Ok(0);
          }
          CopySlice(buf, lo, chunk.value[offsetInChunk..offsetInChunk + n]);
          pos := pos + n;
          return Ok(n);
      }
    }

    /** A seek past the end is fine; the next read there is empty. */
    method Seek(from: SeekFrom) returns (r: Result<u64, Error>)
      modifies this`pos
      ensures r == SeekTo(image, old(pos), from)
      ensures pos == if r.Ok? then r.value else old(pos)
    {
      var newPos: i64;
      match from {
        case Start(n) => newPos := AsI64(n);
        case End(delta) => newPos := WrapI64(AsI64(image.virtualSize) + delta);
        case Current(delta) => newPos := WrapI64(AsI64(pos) + delta);
      }
      if newPos < 0 {
        return Err(SeekBeforeStart);
      }
      pos := newPos;
      return Ok(pos);
    }

    /** Feeds the sink chunk by chunk; the error, if any, is the chunk's that could not be read. */
    method ReadImageStreamContent(sink: Sink) returns (failure: Option<Error>)
      requires sink.Fed()
      modifies sink, sink.jobs
      ensures sink.Fed() && sink.Declared() == old(sink.Declared())
      ensures sink.slices == old(sink.slices) + Slices(image.store, image.imageStreamSize, 0, 0).0
      ensures failure == Slices(image.store, image.imageStreamSize, 0, 0).1
    {
      hide Pieces, PieceStart, ReadChunk, Slices;
      var total := image.imageStreamSize;
      var chunks := Pieces(total, image.store.chunkSize);
      var produced: u64 := 0;
      var idx := 0;
      ghost var all, rest := Slices(image.store, total, 0, 0), Slices(image.store, total, 0, 0);
      while idx < chunks
        invariant 0 <= idx <= chunks && produced <= total
        invariant sink.Fed() && sink.Declared() == old(sink.Declared())
        invariant rest == Slices(image.store, total, idx, produced)
        invariant old(sink.slices) + all.0 == sink.slices + rest.0 && all.1 == rest.1
      {
        SlicesStep(image.store, total, idx, produced);
        var chunk := ReadChunk(image.store, idx);
        if chunk.Err? {
          assert sink.slices + [] == sink.slices;
          return Some(chunk.error);
        }
        var take := Min(|chunk.value|, total - produced);
        ghost var before := sink.slices;
        sink.Feed(chunk.value[..take]);
        produced := produced + take;
        idx := idx + 1;
        ghost var next := Slices(image.store, total, idx, produced);
        assert before + rest.0 == sink.slices + next.0;
        rest := next;
      }
      SlicesStep(image.store, total, idx, produced);
      assert sink.slices + [] == sink.slices;
      return None;
    }
  }

  lemma SplicedNothing(s: seq<Byte>, lo: nat)
    requires lo <= |s|
    ensures Spliced(s, lo, []) == s
  {
  }

  /** `buf[lo..lo + n].fill(value)` */
  method FillSlice(buf: array<Byte>, lo: nat, n: nat, value: Byte)
    requires lo + n <= buf.Length
    modifies buf
    ensures buf[..] == Spliced(old(buf[..]), lo, Prelude.Fill(n, value))
  {
    forall i | lo <= i < lo + n {
      buf[i] := value;
    }
  }

  /** `buf[lo..lo + bytes.len()].copy_from_slice(bytes)` */
  method CopySlice(buf: array<Byte>, lo: nat, bytes: seq<Byte>)
    requires lo + |bytes| <= buf.Length
    modifies buf
    ensures buf[..] == Spliced(old(buf[..]), lo, bytes)
  {
    forall i | lo <= i < lo + |bytes| {
      buf[i] := bytes[i - lo];
    }
  }

  /** `for (i, slot) in buf[lo..lo + n].iter_mut().enumerate()`: the tile pattern from target position `from` on. */
  method TileSlice(buf: array<Byte>, lo: nat, n: u64, tile: Tile, from: u64)
    requires lo + n <= buf.Length
    modifies buf
    ensures buf[..] == Spliced(old(buf[..]), lo, TileBytes(tile, from, n))
  {
    hide Tile.ByteAt, Wrap64;
    ghost var pattern := TileBytes(tile, from, n);
    for i: u64 := 0 to n
      invariant forall k :: lo <= k < lo + i ==> buf[k] == pattern[k - lo]
      invariant forall k :: 0 <= k < lo || lo + i <= k < buf.Length ==> buf[k] == old(buf[k])
    {
      assert pattern[i] == tile.ByteAt(Wrap64(from + i));
      buf[lo + i] := tile.ByteAt(Wrap64(from + i));
    }
  }
}
