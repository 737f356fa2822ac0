/** Positional reads over the shared cursor: the sequential `read_at`, and any number of threads calling it at once. */
module SharedSource {
  import opened Prelude
  import opened VirtualDisk
  import opened Exactness
  import opened Runs
  import opened Reader
  import opened ChunkStore
  import Writer

  /** What a call leaves in the front of the caller's buffer, and the error that ended it early, if any. */
  datatype Outcome = Outcome(written: seq<Byte>, failure: Option<Error>)

  function ResultOf(o: Outcome): Result<nat, Error> {
    match o.failure
    case Some(e) => Err(e)
    case None => Ok(|o.written|)
  }

  /** The fill loop, from cursor `pos` with `want` bytes to go. */
  function FillFrom(im: Image, pos: u64, want: nat): (o: Outcome)
    ensures |o.written| <= want
    decreases want
  {
    if want == 0 then Outcome([], None)
    else
      match ReadBytes(im, pos, want)
      case Err(e) => Outcome([], Some(e))
      case Ok(bytes) =>
        if bytes == [] then Outcome([], None)
        else
          var rest := FillFrom(im, pos + |bytes|, want - |bytes|);
          Outcome(bytes + rest.written, rest.failure)
  }

  /** A whole call with a buffer of `len` bytes. It has no cursor argument: the call seeks first. */
  function ReadAtOutcome(im: Image, offset: u64, len: nat): (o: Outcome)
    ensures |o.written| <= len
  {
    if offset >= im.virtualSize then Outcome([], None)
    else
      match SeekTo(im, 0, Start(offset))
      case Err(e) => Outcome([], Some(e))
      case Ok(pos) => FillFrom(im, pos, Min(len, im.virtualSize - offset))
  }

  class Aff4Source {
    const inner: Aff4Reader
    const len: u64

    ghost predicate Valid() {
      inner.Valid() && len == inner.image.virtualSize
    }

    constructor (reader: Aff4Reader)
      requires reader.Valid()
      ensures Valid() && inner == reader
    {
      inner := reader;
      len := reader.image.virtualSize;
    }

    /** One caller's `read_at` while it has the reader to itself, whatever position the last holder left it at. */
    method ReadAt(offset: u64, buf: array<Byte>) returns (r: Result<nat, Error>)
      requires Valid()
      modifies inner`pos, buf
      ensures var o := ReadAtOutcome(inner.image, offset, buf.Length);
              && r == (if o.failure.Some? then Err(o.failure.value) else Ok(|o.written|))
              && buf[..] == o.written + old(buf[..])[|o.written|..]
      ensures ReadsAgree(inner.container) && (offset < TWO_63 || offset >= len) ==>
                var n := Owed(inner.image, offset, buf.Length);
                r == Ok(n) && buf[..] == DiskBytes(inner.container, offset, offset + n) + old(buf[..])[n..]
    {
      hide ReadBytes, FillFrom, DiskByte, ReadsAgree, Owed;
      if ReadsAgree(inner.container) {
        ReadAtIsDisk(inner.container, offset, buf.Length);
      }
      var avail := Max(0, len - offset);
      if avail == 0 {
        return Ok(0);
      }
      var want := Min(buf.Length, avail);
      var sought := inner.Seek(Start(offset));
      if sought.Err? {
        return Err(sought.error);
      }
      ghost var orig, o := buf[..], FillFrom(inner.image, inner.pos, want);
      r := FillLoop(buf, want);
      WrittenOver(o.written, orig);
    }

    method FillLoop(buf: array<Byte>, want: nat) returns (r: Result<nat, Error>)
      requires want <= buf.Length
      modifies inner`pos, buf
      ensures var o := FillFrom(inner.image, old(inner.pos), want);
              r == ResultOf(o) && buf[..] == Spliced(old(buf[..]), 0, o.written)
    {
      hide ReadBytes, FillFrom, Spliced, After;
      var total := 0;
      ghost var orig, got: seq<Byte> := buf[..], [];
      ghost var outcome, rest := FillFrom(inner.image, inner.pos, want), FillFrom(inner.image, inner.pos, want);
      WrittenOver([], orig);
      AfterNothing([], rest);
      while total < want
        invariant total == |got| <= want
        invariant buf[..] == Spliced(orig, 0, got)
        invariant rest == FillFrom(inner.image, inner.pos, want - total)
        invariant outcome == After(got, rest)
        decreases want - total
      {
        FillStep(inner.image, inner.pos, want - total);
        ghost var bytes := ReadBytes(inner.image, inner.pos, want - total);
        AfterNothing(got, rest);
        var n := inner.Read(buf, total, want);
        if n.Err? {
          return Err(n.error);
        }
        SpliceMore(got, orig, bytes.value);
        if n.value == 0 {
          assert bytes.value == [];
          return Ok(total);
        }
        rest := FillFrom(inner.image, inner.pos, want - total - n.value);
        AfterMore(got, bytes.value, rest);
        got := got + bytes.value;
        total := total + n.value;
      }
      FillStep(inner.image, inner.pos, 0);
      AfterNothing(got, rest);
      return Ok(total);
    }
  }

  /** An outcome with more written in front of it. */
  function After(got: seq<Byte>, o: Outcome): Outcome {
    Outcome(got + o.written, o.failure)
  }

  lemma AfterNothing(got: seq<Byte>, o: Outcome)
    ensures After([], o) == o && got + [] == got
    ensures o.written == [] ==> After(got, o) == Outcome(got, o.failure)
  {
    assert [] + o.written == o.written && got + [] == got;
  }

  lemma AfterMore(got: seq<Byte>, bytes: seq<Byte>, o: Outcome)
    ensures After(got, Outcome(bytes + o.written, o.failure)) == After(got + bytes, o)
  {
    assert got + (bytes + o.written) == got + bytes + o.written;
  }

  lemma FillStep(im: Image, pos: u64, want: nat)
    ensures want == 0 ==> FillFrom(im, pos, want) == Outcome([], None)
    ensures want > 0 ==>
              match ReadBytes(im, pos, want)
              case Err(e) => FillFrom(im, pos, want) == Outcome([], Some(e))
              case Ok(bytes) =>
                if bytes == [] then FillFrom(im, pos, want) == Outcome([], None)
                else
                  var rest := FillFrom(im, pos + |bytes|, want - |bytes|);
                  FillFrom(im, pos, want) == Outcome(bytes + rest.written, rest.failure)
  {
    hide ReadBytes;
  }

  lemma WrittenOver(got: seq<Byte>, orig: seq<Byte>)
    requires |got| <= |orig|
    ensures Spliced(orig, 0, got) == got + orig[|got|..]
    ensures Spliced(orig, 0, []) == orig
  {
  }

  /** Writing the next bytes after those already in place. */
  lemma SpliceMore(got: seq<Byte>, orig: seq<Byte>, bytes: seq<Byte>)
    requires |got| + |bytes| <= |orig|
    ensures Spliced(Spliced(orig, 0, got), |got|, bytes) == Spliced(orig, 0, got + bytes)
  {
  }

  lemma {:induction false} FillIsDisk(c: Container, pos: u64, want: nat)
    requires ReadsAgree(c) && pos + want <= Open(c).virtualSize
    ensures FillFrom(Open(c), pos, want) == Outcome(DiskBytes(c, pos, pos + want), None)
    decreases want
  {
    hide ReadBytes, DiskByte, ReadsAgree, Open;
    if want > 0 {
      AgreeingRead(c, pos, want);
      var n := |ReadBytes(Open(c), pos, want).value|;
      FillIsDisk(c, pos + n, want - n);
      assert DiskBytes(c, pos, pos + want) == DiskBytes(c, pos, pos + n) + DiskBytes(c, pos + n, pos + want);
    }
  }

  /** How much of the disk a call at `offset` with `len` bytes of buffer is owed: nothing at or past the end. */
  function Owed(im: Image, offset: u64, len: nat): nat {
    Min(len, Max(0, im.virtualSize - offset))
  }

  /** A call is owed a slice of the disk, and gets it unless its offset is one the seek refuses. */
  lemma ReadAtIsDisk(c: Container, offset: u64, len: nat)
    requires ReadsAgree(c)
    ensures ReadAtOutcome(Open(c), offset, len)
            == Outcome(DiskBytes(c, offset, offset + Owed(Open(c), offset, len)), None)
            <==> offset < TWO_63 || offset >= Open(c).virtualSize
  {
    hide FillFrom, DiskByte, ReadsAgree, Open;
    if offset < Open(c).virtualSize {
      FillIsDisk(c, offset, Owed(Open(c), offset, len));
    }
  }

  /** Positional reads are right at every offset exactly when the disk is no larger than 2^63 bytes. */
  lemma ReadAtIffDiskFits(c: Container)
    requires ReadsAgree(c)
    ensures (forall offset: u64, len: nat {:trigger Owed(Open(c), offset, len)} ::
               ReadAtOutcome(Open(c), offset, len)
               == Outcome(DiskBytes(c, offset, offset + Owed(Open(c), offset, len)), None))
            <==> Open(c).virtualSize <= TWO_63
  {
    hide ReadAtOutcome, DiskBytes, ReadsAgree, Open;
    forall offset: u64, len: nat
      ensures ReadAtOutcome(Open(c), offset, len)
              == Outcome(DiskBytes(c, offset, offset + Owed(Open(c), offset, len)), None)
              <==> offset < TWO_63 || offset >= Open(c).virtualSize
    {
      ReadAtIsDisk(c, offset, len);
    }
    var o := Owed(Open(c), TWO_63, 0);
  }

  // ---- exactly when calls come up short ----

  lemma {:induction false} FillStopsWhere(im: Image, pos: u64, want: nat)
    requires pos + want <= im.virtualSize
    ensures var o := FillFrom(im, pos, want);
            var left := want - |o.written|;
            && (o.failure.Some? <==> left > 0 && ReadBytes(im, pos + |o.written|, left).Err?)
            && (o.failure.Some? ==> ReadBytes(im, pos + |o.written|, left) == Err(o.failure.value))
            && (o.failure.None? && left > 0 ==> ReadBytes(im, pos + |o.written|, left) == Ok([]))
    ensures want > 0 && ReadBytes(im, pos, want).Ok? ==>
              ReadBytes(im, pos, want).value <= FillFrom(im, pos, want).written
    decreases want
  {
    hide ReadBytes, FillFrom;
    FillStep(im, pos, want);
    if want > 0 && ReadBytes(im, pos, want).Ok? && ReadBytes(im, pos, want).value != [] {
      var n := |ReadBytes(im, pos, want).value|;
      FillStopsWhere(im, pos + n, want - n);
    }
  }

  /** On any image, how a call ends: with nothing past the end of the disk, with the seek's refusal from 2^63 on, and
      otherwise where it has all it is owed or where the next read fails, with that error, or finds nothing. */
  lemma CallEndsWhere(im: Image, offset: u64, len: nat)
    ensures var o, owed := ReadAtOutcome(im, offset, len), Owed(im, offset, len);
            && |o.written| <= owed
            && (offset >= im.virtualSize ==> o == Outcome([], None))
            && (TWO_63 <= offset < im.virtualSize ==> o == Outcome([], Some(SeekBeforeStart)))
            && (offset < TWO_63 && offset < im.virtualSize ==>
                  var p, left := offset + |o.written|, owed - |o.written|;
                  && (o.failure.Some? <==> left > 0 && ReadBytes(im, p, left).Err?)
                  && (o.failure.Some? ==> ReadBytes(im, p, left) == Err(o.failure.value))
                  && (o.failure.None? ==> left == 0 || ReadBytes(im, p, left) == Ok([])))
  {
    hide ReadBytes, FillFrom;
    if offset < TWO_63 && offset < im.virtualSize {
      FillStopsWhere(im, offset, Owed(im, offset, len));
    }
  }

  /** A call that gets everything it is owed. */
  predicate Whole(im: Image, offset: u64, len: nat) {
    var o := ReadAtOutcome(im, offset, len);
    o.failure.None? && |o.written| == Owed(im, offset, len)
  }

  lemma {:induction false} FillIsWhole(im: Image, pos: u64, want: nat)
    requires pos + want <= im.virtualSize && forall t: u64 :: t < im.virtualSize ==> FindsByte(im, t)
    ensures FillFrom(im, pos, want).failure.None? && |FillFrom(im, pos, want).written| == want
    decreases want
  {
    hide ReadBytes, FindsByte;
    if want > 0 {
      assert FindsByte(im, pos);
      ShortReadIff(im, pos, want);
      FindsMeans(im, pos, want);
      var n := |ReadBytes(im, pos, want).value|;
      FillIsWhole(im, pos + n, want - n);
    }
  }

  lemma FindsMeans(im: Image, t: u64, len: nat)
    requires t < im.virtualSize && len > 0
    ensures FindsByte(im, t) <==> ReadBytes(im, t, len).Ok? && ReadBytes(im, t, len).value != []
  {
    hide Lookup, ReadChunk;
    ShortReadIff(im, t, len);
    ShortReadIff(im, t, 1);
  }

  /** On any image: every call at every offset gets everything it is owed, without failing, exactly when the disk has at
      most 2^63 bytes and every byte of it can be found. */
  lemma CallsWholeIff(im: Image)
    ensures (forall offset: u64, len: nat {:trigger Whole(im, offset, len)} :: Whole(im, offset, len)) <==>
            im.virtualSize <= TWO_63 && forall t: u64 :: t < im.virtualSize ==> FindsByte(im, t)
  {
    hide ReadBytes, FindsByte, FillFrom;
    if forall offset: u64, len: nat {:trigger Whole(im, offset, len)} :: Whole(im, offset, len) {
      assert Whole(im, TWO_63, 1);
      forall t: u64 | t < im.virtualSize
        ensures FindsByte(im, t)
      {
        assert Whole(im, t, 1);
        FillStep(im, t, 1);
        FindsMeans(im, t, 1);
      }
    }
    if im.virtualSize <= TWO_63 && forall t: u64 :: t < im.virtualSize ==> FindsByte(im, t) {
      forall offset: u64, len: nat
        ensures Whole(im, offset, len)
      {
        if offset < im.virtualSize {
          FillIsWhole(im, offset, Min(len, im.virtualSize - offset));
        }
      }
    }
  }

  /** One segment of one chunk, stored as a single byte. */
  ghost function ShortArchive(base: string): Archive {
    Writer.SmallPartsPack([[7]], 2, 1);
    Writer.Pack(base, [[7]], 1, Pieces(1, 1))
  }

  /** The guard does fire: a two-byte stream whose only chunk decodes to one byte reads nothing at position 1, and a
      call for both bytes returns one, with no error. */
  lemma ShortChunkShows(st: Store)
    requires st.chunkSize == 2 && st.chunksPerSegment == 1 && st.compression == Null
    requires st.archive == ShortArchive(st.zipBase)
    ensures var im := Open(Container(st, 2, None));
            && ReadBytes(im, 1, 1) == Ok([])
            && ReadAtOutcome(im, 0, 2) == Outcome([7], None) && Owed(im, 0, 2) == 2
  {
    hide Writer.Pack, Writer.Packable, SegmentName, ChunkBounds;
    Writer.SmallPartsPack([[7]], 2, 1);
    Writer.PackedPart(st.zipBase, [[7]], 1, 0);
    assert PieceOf(0, 1) == 0 && Within(0, 1) == 0;
    assert ReadChunk(st, 0) == Ok([7]);
    assert PieceOf(0, 2) == 0 && PieceOf(1, 2) == 0 && Within(0, 2) == 0 && Within(1, 2) == 1;
    var im := Open(Container(st, 2, None));
    assert [7][0..1] == [7];
    assert ReadBytes(im, 0, 2) == Ok([7]);
    FillStep(im, 0, 2);
    FillStep(im, 1, 1);
    assert [7] + [] == [7];
  }
}
