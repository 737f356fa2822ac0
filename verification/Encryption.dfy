/** The obvious encryptor, and the proof that the decryption loop inverts it. */
module Encryption {
  import opened Prelude
  import opened ChunkStore
  import opened Decrypt
  import opened Writer

  type SectorCipher = (u64, seq<Byte>) -> seq<Byte>

  /** Chunk `k`, padded, encrypted under tweak `k`. */
  function EncryptedChunks(content: seq<Byte>, cs: Positive64, encrypt: SectorCipher): (parts: seq<seq<Byte>>)
    requires |content| < TWO_64
    ensures |parts| == Pieces(|content|, cs)
  {
    hide Pieces, PieceStart;
    FewerPieces(|content|, cs);
    seq(Pieces(|content|, cs), k requires 0 <= k < Pieces(|content|, cs) =>
      PieceCount(|content|, cs, k); encrypt(k, PaddedChunk(content, cs, k)))
  }

  /** The sector cipher keeps lengths and is undone, tweak by tweak, by the volume's. */
  ghost predicate CipherInverts(v: Volume, cs: Positive64, encrypt: SectorCipher) {
    forall k: u64, c: seq<Byte> :: |c| == cs ==> |encrypt(k, c)| == cs && v.decrypt(k, encrypt(k, c)) == c
  }

  ghost predicate EncryptedBy(v: Volume, content: seq<Byte>, cs: Positive64, encrypt: SectorCipher) {
    && |content| < TWO_64
    && v.size == |content|
    && CipherInverts(v, cs, encrypt)
    && var parts := EncryptedChunks(content, cs, encrypt);
       && Packable(parts, v.chunksPerSegment)
       && v.archive == Pack(v.zipBase, parts, v.chunksPerSegment, Pieces(|parts|, v.chunksPerSegment))
  }

  /** Content of sizes that fit the format can always be packed once encrypted. */
  lemma EncryptedChunksPack(v: Volume, content: seq<Byte>, cs: Positive64, encrypt: SectorCipher)
    requires Fits(content, cs, v.chunksPerSegment) && CipherInverts(v, cs, encrypt)
    ensures Packable(EncryptedChunks(content, cs, encrypt), v.chunksPerSegment)
  {
    hide Pieces, PieceStart, PaddedChunk;
    FewerPieces(|content|, cs);
    var parts := EncryptedChunks(content, cs, encrypt);
    forall i | 0 <= i < |parts|
      ensures |parts[i]| <= cs
    {
      PieceCount(|content|, cs, i);
      assert parts[i] == encrypt(i, PaddedChunk(content, cs, i));
    }
    SmallPartsPack(parts, cs, v.chunksPerSegment);
  }

  lemma PackedSector(v: Volume, content: seq<Byte>, cs: Positive64, encrypt: SectorCipher, k: nat)
    requires EncryptedBy(v, content, cs, encrypt) && k < Pieces(|content|, cs)
    ensures PieceStart(k, cs) < |content|
    ensures var s, j := PieceOf(k, v.chunksPerSegment), Within(k, v.chunksPerSegment);
            var index, bevy := Entry(v.archive, IndexName(v.zipBase, s)), Entry(v.archive, SegmentName(v.zipBase, s));
            && index.Ok? && bevy.Ok?
            && SectorAt(v, s, j, index.value, bevy.value) == Ok(Sector(s, j, PaddedChunk(content, cs, k)))
  {
    hide PieceOf, Within, Pieces, PieceStart, PaddedChunk, Pack, ChunkBounds, SegmentName, Packable;
    var cps := v.chunksPerSegment;
    PieceCount(|content|, cs, k);
    FewerPieces(|content|, cs);
    var parts := EncryptedChunks(content, cs, encrypt);
    assert parts[k] == encrypt(k, PaddedChunk(content, cs, k));
    PackedPart(v.zipBase, parts, cps, k);
    PieceLocate(k, cps);
  }

  lemma PackedCount(v: Volume, content: seq<Byte>, cs: Positive64, encrypt: SectorCipher, s: nat)
    requires EncryptedBy(v, content, cs, encrypt)
    requires PieceStart(s, v.chunksPerSegment) < Pieces(|content|, cs)
    ensures SlotCount(v, s) == Min(v.chunksPerSegment, Pieces(|content|, cs) - PieceStart(s, v.chunksPerSegment))
    ensures Entry(v.archive, IndexName(v.zipBase, s)).Ok? && Entry(v.archive, SegmentName(v.zipBase, s)).Ok?
    ensures s + 1 < TWO_64
  {
    hide Pieces, PieceStart, Pack, SegmentName;
    var cps := v.chunksPerSegment;
    var parts := EncryptedChunks(content, cs, encrypt);
    FewerPieces(|content|, cs);
    PieceCount(|parts|, cps, s);
    PackLookup(v.zipBase, parts, cps, Pieces(|parts|, cps), s);
    PieceNext(s, cps);
  }

  predicate IsChunk(content: seq<Byte>, cs: Positive64, k: nat, c: seq<Byte>) {
    PieceStart(k, cs) < |content| && c == PaddedChunk(content, cs, k)
  }

  /** Padded chunks `k`, `k + 1`, ..., one after the other. */
  ghost predicate AreChunks(content: seq<Byte>, cs: Positive64, k: nat, plains: seq<seq<Byte>>) {
    forall i :: 0 <= i < |plains| ==> IsChunk(content, cs, k + i, plains[i])
  }

  lemma ChunksCons(content: seq<Byte>, cs: Positive64, k: nat, c: seq<Byte>, rest: seq<seq<Byte>>)
    ensures AreChunks(content, cs, k, [c] + rest) <==> IsChunk(content, cs, k, c) && AreChunks(content, cs, k + 1, rest)
  {
    hide IsChunk;
    var all := [c] + rest;
    if AreChunks(content, cs, k, all) {
      assert IsChunk(content, cs, k + 0, all[0]);
      forall i | 0 <= i < |rest|
        ensures IsChunk(content, cs, k + 1 + i, rest[i])
      {
        assert IsChunk(content, cs, k + (i + 1), all[i + 1]);
      }
    }
    if IsChunk(content, cs, k, c) && AreChunks(content, cs, k + 1, rest) {
      forall i | 0 <= i < |all|
        ensures IsChunk(content, cs, k + i, all[i])
      {
        assert i > 0 ==> IsChunk(content, cs, k + 1 + (i - 1), rest[i - 1]);
      }
    }
  }

  /** From chunk `k` on, the plan is the remaining padded chunks in order. */
  lemma {:induction false} PlanOfEncrypted(v: Volume, content: seq<Byte>, cs: Positive64, encrypt: SectorCipher,
                                           segment: u64, slot: nat, k: nat)
    requires EncryptedBy(v, content, cs, encrypt)
    requires k == PieceStart(segment, v.chunksPerSegment) + slot
    requires slot == 0
             || (PieceStart(segment, v.chunksPerSegment) < Pieces(|content|, cs) && slot <= SlotCount(v, segment))
    ensures var r := Plan(v, segment, slot, Min(v.size, PieceStart(k, cs)));
            && r.Ok? && |r.value| == Max(0, Pieces(|content|, cs) - k)
            && AreChunks(content, cs, k, Plains(r.value))
    decreases TWO_64 - segment, Max(0, SlotCount(v, segment) - slot)
  {
    hide PieceOf, Within, Pieces, PieceStart, PaddedChunk, SegmentName;
    hide Plan, SectorAt, SlotCount, EncryptedBy, AreChunks;
    var n, cps := Pieces(|content|, cs), v.chunksPerSegment;
    var produced := Min(v.size, PieceStart(k, cs));
    SizeIs(v, content, cs, encrypt);
    PieceCount(|content|, cs, k);
    PlanStep(v, segment, slot, produced);
    if slot == 0 && k >= n {
      NoChunks(content, cs, k);
    } else {
      PackedCount(v, content, cs, encrypt, segment);
      SlotCountIs(v, segment);
      if slot < SlotCount(v, segment) {
        PieceUnique(k, cps, segment, slot);
        PackedSector(v, content, cs, encrypt, k);
        PieceNext(k, cs);
        PlanOfEncrypted(v, content, cs, encrypt, segment, slot + 1, k + 1);
        var s := Sector(segment, slot, PaddedChunk(content, cs, k));
        var rest := Plan(v, segment, slot + 1, Min(v.size, PieceStart(k + 1, cs))).value;
        assert Plan(v, segment, slot, produced) == Ok([s] + rest);
        ChunksCons(content, cs, k, s.plain, Plains(rest));
        assert Plains([s] + rest) == [s.plain] + Plains(rest);
      } else {
        PieceNext(segment, cps);
        PastTheEnd(content, cs, k, PieceStart(segment + 1, cps));
        PlanOfEncrypted(v, content, cs, encrypt, segment + 1, 0, PieceStart(segment + 1, cps));
        if k != PieceStart(segment + 1, cps) {
          NoChunks(content, cs, k);
        }
      }
    }
  }

  lemma NoChunks(content: seq<Byte>, cs: Positive64, k: nat)
    ensures AreChunks(content, cs, k, []) && Plains([]) == []
  {
  }

  lemma SizeIs(v: Volume, content: seq<Byte>, cs: Positive64, encrypt: SectorCipher)
    requires EncryptedBy(v, content, cs, encrypt)
    ensures v.size == |content|
  {
  }

  lemma SlotCountIs(v: Volume, segment: nat)
    requires Entry(v.archive, IndexName(v.zipBase, segment)).Ok?
    ensures SlotCount(v, segment) == |Entry(v.archive, IndexName(v.zipBase, segment)).value| / INDEX_ENTRY
  {
  }

  /** A last, partial segment ends the content, so skipping to the next segment's first number skips nothing. */
  lemma PastTheEnd(content: seq<Byte>, cs: Positive64, k: nat, k': nat)
    requires k == k' || (k == Pieces(|content|, cs) && k <= k')
    ensures Min(|content|, PieceStart(k, cs)) == Min(|content|, PieceStart(k', cs))
    ensures Max(0, Pieces(|content|, cs) - k) == Max(0, Pieces(|content|, cs) - k')
    ensures k != k' ==> Pieces(|content|, cs) - k' <= 0
  {
    hide Pieces, PieceStart;
    PieceCount(|content|, cs, k);
    PieceOrder(k, k', cs);
  }

  lemma {:induction false} PaddedConcat(content: seq<Byte>, cs: Positive64, k: nat, plains: seq<seq<Byte>>)
    requires k <= Pieces(|content|, cs) && |plains| == Pieces(|content|, cs) - k
    requires AreChunks(content, cs, k, plains)
    ensures var from := Min(|content|, PieceStart(k, cs));
            |Concat(plains)| >= |content| - from && Concat(plains)[..|content| - from] == content[from..]
    decreases |plains|
  {
    hide Pieces, PieceStart, AreChunks;
    PieceCount(|content|, cs, k);
    if plains != [] {
      PieceNext(k, cs);
      ChunksCons(content, cs, k, plains[0], plains[1..]);
      assert plains == [plains[0]] + plains[1..];
      PaddedConcat(content, cs, k + 1, plains[1..]);
      var from, end := PieceStart(k, cs), Min(|content|, PieceStart(k + 1, cs));
      var rest := Concat(plains[1..]);
      assert plains[0][..end - from] == content[from..end];
      if end == PieceStart(k + 1, cs) {
        assert (plains[0] + rest)[..|content| - from] == plains[0] + rest[..|content| - end];
      }
      assert content[from..end] + content[end..] == content[from..];
    }
  }

  /** Decryption inverts encryption: the loop returns exactly the plaintext, whatever its length, given only a cipher
      that is invertible per tweak. */
  lemma DecryptInvertsEncrypt(v: Volume, content: seq<Byte>, cs: Positive64, encrypt: SectorCipher)
    requires EncryptedBy(v, content, cs, encrypt)
    ensures Decrypted(v) == Ok(content)
  {
    hide Pieces, PieceStart, PaddedChunk, Plan, EncryptedBy;
    SizeIs(v, content, cs, encrypt);
    PieceNext(0, v.chunksPerSegment);
    PieceNext(0, cs);
    PlanOfEncrypted(v, content, cs, encrypt, 0, 0, 0);
    var ss := Plan(v, 0, 0, 0).value;
    PaddedConcat(content, cs, 0, Plains(ss));
    assert content[0..] == content;
  }

  /** Any content whose encrypted chunks fit the index fields can be encrypted, with any cipher invertible per tweak,
      and the volume made decrypts to it. */
  lemma EncryptThenDecrypt(base: string, content: seq<Byte>, cs: Positive64, cps: Positive64,
                           encrypt: SectorCipher, decrypt: SectorCipher) returns (v: Volume)
    requires |content| < TWO_64 && Packable(EncryptedChunks(content, cs, encrypt), cps)
    requires CipherInverts(Volume(map[], base, cps, 0, decrypt), cs, encrypt)
    ensures EncryptedBy(v, content, cs, encrypt) && v == Volume(v.archive, base, cps, |content|, decrypt)
    ensures Decrypted(v) == Ok(content)
  {
    hide Pieces, PieceStart, PaddedChunk, Pack, EncryptedChunks, Packable, Decrypted;
    var parts := EncryptedChunks(content, cs, encrypt);
    v := Volume(Pack(base, parts, cps, Pieces(|parts|, cps)), base, cps, |content|, decrypt);
    DecryptInvertsEncrypt(v, content, cs, encrypt);
  }
}
