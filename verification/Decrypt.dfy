/** The decryption loop over an encrypted stream's segments and chunks. */
module Decrypt {
  import opened Prelude
  import opened ChunkStore

  /** The opened container with its derived key: the sector cipher is library code, taken as a function of the tweak. */
  datatype Volume = Volume(
    archive: Archive,
    zipBase: string,
    chunksPerSegment: Positive64,
    size: u64,
    decrypt: (u64, seq<Byte>) -> seq<Byte>)

  /** A decrypted chunk and where it came from. */
  datatype Sector = Sector(segment: nat, slot: nat, plain: seq<Byte>)

  function Tweak(v: Volume, s: Sector): nat {
    PieceStart(s.segment, v.chunksPerSegment) + s.slot
  }

  /** Slots in a segment's index (none if there is no index). */
  function SlotCount(v: Volume, segment: nat): nat {
    match Entry(v.archive, IndexName(v.zipBase, segment))
    case Ok(index) => |index| / INDEX_ENTRY
    case Err(_) => 0
  }

  function SectorAt(v: Volume, segment: nat, slot: nat, index: seq<Byte>, bevy: seq<Byte>): Result<Sector, Error> {
    match ChunkBounds(index, slot)
    case Err(e) => Err(e)
    case Ok((start, end)) =>
      if end > |bevy| then Err(BoundsExceedBevy(start, end, |bevy|))
      else
        var id := PieceStart(segment, v.chunksPerSegment) + slot;
        if id >= TWO_64 then Err(ChunkIdOverflow)
        else Ok(Sector(segment, slot, v.decrypt(id, bevy[start..end])))
  }

  /** The sectors still to be taken from (segment, slot) on, with `produced` bytes already out. */
  function Plan(v: Volume, segment: u64, slot: nat, produced: nat): Result<seq<Sector>, Error>
    decreases TWO_64 - segment, Max(0, SlotCount(v, segment) - slot)
  {
    if slot == 0 && produced >= v.size then Ok([])
    else
      match Entry(v.archive, IndexName(v.zipBase, segment))
      case Err(e) => Err(e)
      case Ok(index) =>
        match Entry(v.archive, SegmentName(v.zipBase, segment))
        case Err(e) => Err(e)
        case Ok(bevy) =>
          if |index| / INDEX_ENTRY == 0 then Err(EmptySegmentIndex)
          else if slot < |index| / INDEX_ENTRY && produced < v.size then
            match SectorAt(v, segment, slot, index, bevy)
            case Err(e) => Err(e)
            case Ok(sector) => Prepend([sector], Plan(v, segment, slot + 1, Min(v.size, produced + |sector.plain|)))
          else if segment + 1 >= TWO_64 then Err(SegmentOverflow)
          else Plan(v, segment + 1, 0, produced)
  }

  function Prepend(done: seq<Sector>, r: Result<seq<Sector>, Error>): Result<seq<Sector>, Error> {
    match r
    case Ok(rest) => Ok(done + rest)
    case Err(e) => Err(e)
  }

  function Plains(ss: seq<Sector>): (ps: seq<seq<Byte>>)
    ensures |ps| == |ss|
  {
    seq(|ss|, i requires 0 <= i < |ss| => ss[i].plain)
  }

  /** The loop's result: the planned sectors put together, trimmed to the declared size. */
  function Decrypted(v: Volume): Result<seq<Byte>, Error> {
    match Plan(v, 0, 0, 0)
    case Err(e) => Err(e)
    case Ok(ss) => Ok(Concat(Plains(ss))[..Min(v.size, |Concat(Plains(ss))|)])
  }

  lemma PlainsSnoc(ss: seq<Sector>, s: Sector)
    ensures Concat(Plains(ss + [s])) == Concat(Plains(ss)) + s.plain
  {
    assert Plains(ss + [s]) == Plains(ss) + [s.plain];
    ConcatSnoc(Plains(ss), s.plain);
  }

  lemma PrependPrepend(done: seq<Sector>, s: Sector, r: Result<seq<Sector>, Error>)
    ensures Prepend(done, Prepend([s], r)) == Prepend(done + [s], r)
  {
    if r.Ok? {
      assert done + ([s] + r.value) == done + [s] + r.value;
    }
  }

  /** The bytes out so far are the sectors taken so far, trimmed. */
  ghost predicate OutIs(v: Volume, out: seq<Byte>, produced: nat, done: seq<Sector>) {
    var all := Concat(Plains(done));
    produced == Min(v.size, |all|) && out == all[..produced]
  }

  lemma TakeSector(v: Volume, out: seq<Byte>, produced: nat, done: seq<Sector>, s: Sector)
    requires OutIs(v, out, produced, done) && produced < v.size
    ensures var take := Min(|s.plain|, v.size - produced);
            OutIs(v, out + s.plain[..take], produced + take, done + [s])
            && produced + take == Min(v.size, produced + |s.plain|)
  {
    PlainsSnoc(done, s);
  }

  /** `decrypt_reader`'s loop, once room for the declared size is there. It ends on every archive: each round moves to
      the next segment, of which there are 2^64. */
  method DecryptStream(v: Volume) returns (r: Result<seq<Byte>, Error>)
    ensures r == Decrypted(v)
  {
    hide ChunkBounds, SectorAt, SegmentName, Plains, Plan;
    var out: seq<Byte> := [];
    var produced: u64 := 0;
    var segment: u64 := 0;
    ghost var done: seq<Sector> := [];
    assert Plan(v, 0, 0, 0).Ok? ==> [] + Plan(v, 0, 0, 0).value == Plan(v, 0, 0, 0).value;
    while produced < v.size
      invariant OutIs(v, out, produced, done)
      invariant Plan(v, 0, 0, 0) == Prepend(done, Plan(v, segment, 0, produced))
      decreases TWO_64 - segment
    {
      PlanStep(v, segment, 0, produced);
      var index := Entry(v.archive, IndexName(v.zipBase, segment));
      if index.Err? {
        return Err(index.error);
      }
      var bevy := Entry(v.archive, SegmentName(v.zipBase, segment));
      if bevy.Err? {
        return Err(bevy.error);
      }
      var chunks := |index.value| / INDEX_ENTRY;
      if chunks == 0 {
        return Err(EmptySegmentIndex);
      }
      var slot := 0;
      while slot < chunks
        invariant 0 <= slot <= chunks && produced <= v.size
        invariant slot == 0 ==> produced < v.size
        invariant OutIs(v, out, produced, done)
        invariant Plan(v, 0, 0, 0) == Prepend(done, Plan(v, segment, slot, produced))
      {
        PlanStep(v, segment, slot, produced);
        if produced >= v.size {
          break;
        }
        var sector := SectorAt(v, segment, slot, index.value, bevy.value);
        if sector.Err? {
          return Err(sector.error);
        }
        var take := Min(|sector.value.plain|, v.size - produced);
        TakeSector(v, out, produced, done, sector.value);
        PrependPrepend(done, sector.value, Plan(v, segment, slot + 1, produced + take));
        out := out + sector.value.plain[..take];
        produced := produced + take;
        done := done + [sector.value];
        slot := slot + 1;
      }
      PlanStep(v, segment, slot, produced);
      if segment + 1 >= TWO_64 {
        return Err(SegmentOverflow);
      }
      segment := segment + 1;
    }
    PlanStep(v, segment, 0, produced);
    assert done + [] == done;
    return Ok(out);
  }

  /** One unfolding of the plan. */
  lemma PlanStep(v: Volume, segment: u64, slot: nat, produced: nat)
    ensures slot == 0 && produced >= v.size ==> Plan(v, segment, slot, produced) == Ok([])
    ensures !(slot == 0 && produced >= v.size) ==>
              match Entry(v.archive, IndexName(v.zipBase, segment))
              case Err(e) => Plan(v, segment, slot, produced) == Err(e)
              case Ok(index) =>
                match Entry(v.archive, SegmentName(v.zipBase, segment))
                case Err(e) => Plan(v, segment, slot, produced) == Err(e)
                case Ok(bevy) =>
                  if |index| / INDEX_ENTRY == 0 then Plan(v, segment, slot, produced) == Err(EmptySegmentIndex)
                  else if slot < |index| / INDEX_ENTRY && produced < v.size then
                    match SectorAt(v, segment, slot, index, bevy)
                    case Err(e) => Plan(v, segment, slot, produced) == Err(e)
                    case Ok(sector) =>
                      var next := Plan(v, segment, slot + 1, Min(v.size, produced + |sector.plain|));
                      Plan(v, segment, slot, produced) == Prepend([sector], next)
                  else if segment + 1 >= TWO_64 then Plan(v, segment, slot, produced) == Err(SegmentOverflow)
                  else Plan(v, segment, slot, produced) == Plan(v, segment + 1, 0, produced)
  {
    hide SectorAt, SegmentName;
  }

  // ---- what a plan is, independently of how it is found ----

  /** `s` really is the decryption of its slot, under its own tweak. */
  predicate Genuine(v: Volume, s: Sector) {
    && Tweak(v, s) < TWO_64
    && s.slot < SlotCount(v, s.segment)
    && Entry(v.archive, SegmentName(v.zipBase, s.segment)).Ok?
    && var bounds := ChunkBounds(Entry(v.archive, IndexName(v.zipBase, s.segment)).value, s.slot);
       var bevy := Entry(v.archive, SegmentName(v.zipBase, s.segment)).value;
       && bounds.Ok? && bounds.value.1 <= |bevy|
       && s.plain == v.decrypt(Tweak(v, s), bevy[bounds.value.0..bounds.value.1])
  }

  /** `b` comes right after `a`: the next slot, or the first slot of the next segment. */
  predicate Follows(v: Volume, a: Sector, b: Sector) {
    || (b.segment == a.segment && b.slot == a.slot + 1)
    || (b.segment == a.segment + 1 && b.slot == 0 && a.slot + 1 == SlotCount(v, a.segment))
  }

  ghost predicate Consecutive(v: Volume, ss: seq<Sector>) {
    forall i :: 0 <= i < |ss| - 1 ==> Follows(v, ss[i], ss[i + 1])
  }

  /** Where a plan from (segment, slot) begins. */
  predicate Heads(v: Volume, segment: nat, slot: nat, s: Sector) {
    if slot == 0 || slot < SlotCount(v, segment) then s.segment == segment && s.slot == slot
    else s.segment == segment + 1 && s.slot == 0
  }

  /** The sectors a run decrypts from (segment, slot) on, up to its end or to the error that stops it. */
  function Taken(v: Volume, segment: u64, slot: nat, produced: nat): seq<Sector>
    decreases TWO_64 - segment, Max(0, SlotCount(v, segment) - slot)
  {
    if slot == 0 && produced >= v.size then []
    else
      match (Entry(v.archive, IndexName(v.zipBase, segment)), Entry(v.archive, SegmentName(v.zipBase, segment)))
      case (Ok(index), Ok(bevy)) =>
        if |index| / INDEX_ENTRY == 0 then []
        else if slot < |index| / INDEX_ENTRY && produced < v.size then
          match SectorAt(v, segment, slot, index, bevy)
          case Err(_) => []
          case Ok(sector) => [sector] + Taken(v, segment, slot + 1, Min(v.size, produced + |sector.plain|))
        else if segment + 1 >= TWO_64 then []
        else Taken(v, segment + 1, 0, produced)
      case _ => []
  }

  /** A run that succeeds takes exactly the sectors of its plan. */
  lemma {:induction false} PlanIsTaken(v: Volume, segment: u64, slot: nat, produced: nat)
    requires Plan(v, segment, slot, produced).Ok?
    ensures Plan(v, segment, slot, produced).value == Taken(v, segment, slot, produced)
    decreases TWO_64 - segment, Max(0, SlotCount(v, segment) - slot)
  {
    hide SectorAt, SegmentName;
    if !(slot == 0 && produced >= v.size) {
      var index := Entry(v.archive, IndexName(v.zipBase, segment)).value;
      var bevy := Entry(v.archive, SegmentName(v.zipBase, segment)).value;
      if slot < |index| / INDEX_ENTRY && produced < v.size {
        var s := SectorAt(v, segment, slot, index, bevy).value;
        PlanIsTaken(v, segment, slot + 1, Min(v.size, produced + |s.plain|));
      } else {
        PlanIsTaken(v, segment + 1, 0, produced);
      }
    }
  }

  lemma SectorIsGenuine(v: Volume, segment: u64, slot: nat)
    requires slot < SlotCount(v, segment) && Entry(v.archive, SegmentName(v.zipBase, segment)).Ok?
    requires var index := Entry(v.archive, IndexName(v.zipBase, segment));
             var bevy := Entry(v.archive, SegmentName(v.zipBase, segment));
             SectorAt(v, segment, slot, index.value, bevy.value).Ok?
    ensures var index := Entry(v.archive, IndexName(v.zipBase, segment));
            var bevy := Entry(v.archive, SegmentName(v.zipBase, segment));
            var s := SectorAt(v, segment, slot, index.value, bevy.value).value;
            Genuine(v, s) && s.segment == segment && s.slot == slot
  {
    hide ChunkBounds, SegmentName, PieceStart;
  }

  lemma {:induction false} TakenWalks(v: Volume, segment: u64, slot: nat, produced: nat)
    requires slot <= SlotCount(v, segment)
    ensures var ss := Taken(v, segment, slot, produced);
            && (forall i :: 0 <= i < |ss| ==> Genuine(v, ss[i]))
            && Consecutive(v, ss)
            && (ss != [] ==> Heads(v, segment, slot, ss[0]))
    decreases TWO_64 - segment, SlotCount(v, segment) - slot
  {
    hide SectorAt, SegmentName, Genuine;
    var ss := Taken(v, segment, slot, produced);
    if ss != [] {
      var index := Entry(v.archive, IndexName(v.zipBase, segment)).value;
      var bevy := Entry(v.archive, SegmentName(v.zipBase, segment)).value;
      if slot < SlotCount(v, segment) && produced < v.size {
        var s := SectorAt(v, segment, slot, index, bevy).value;
        SectorIsGenuine(v, segment, slot);
        TakenWalks(v, segment, slot + 1, Min(v.size, produced + |s.plain|));
        var rest := Taken(v, segment, slot + 1, Min(v.size, produced + |s.plain|));
        assert ss == [s] + rest;
        assert rest != [] ==> Follows(v, s, rest[0]);
        assert forall i :: 1 <= i < |ss| ==> ss[i] == rest[i - 1];
      } else {
        TakenWalks(v, segment + 1, 0, produced);
      }
    }
  }

  /** A plan covers the declared size, and no shorter one would. */
  lemma {:induction false} PlanCovers(v: Volume, segment: u64, slot: nat, produced: nat)
    requires Plan(v, segment, slot, produced).Ok? && produced <= v.size
    ensures var ss := Plan(v, segment, slot, produced).value;
            && produced + |Concat(Plains(ss))| >= v.size
            && (ss != [] ==> produced + |Concat(Plains(ss[..|ss| - 1]))| < v.size)
    decreases TWO_64 - segment, Max(0, SlotCount(v, segment) - slot)
  {
    hide SectorAt, SegmentName, Plan, Plains;
    PlanStep(v, segment, slot, produced);
    if !(slot == 0 && produced >= v.size) {
      var index := Entry(v.archive, IndexName(v.zipBase, segment)).value;
      var bevy := Entry(v.archive, SegmentName(v.zipBase, segment)).value;
      if slot < |index| / INDEX_ENTRY && produced < v.size {
        var s := SectorAt(v, segment, slot, index, bevy).value;
        var next := Min(v.size, produced + |s.plain|);
        PlanCovers(v, segment, slot + 1, next);
        var rest := Plan(v, segment, slot + 1, next).value;
        PlainsCons(s, rest);
        if rest == [] {
          assert ([s] + rest)[..0] == [];
          PlainsCons(s, []);
          NoPlains();
        } else {
          PlainsCons(s, rest[..|rest| - 1]);
          assert ([s] + rest)[..|rest|] == [s] + rest[..|rest| - 1];
        }
      } else {
        PlanCovers(v, segment + 1, 0, produced);
      }
    }
  }

  lemma NoPlains()
    ensures Concat(Plains([])) == []
  {
  }

  lemma PlainsCons(s: Sector, rest: seq<Sector>)
    ensures Concat(Plains([s] + rest)) == s.plain + Concat(Plains(rest))
  {
    assert Plains([s] + rest)[1..] == Plains(rest);
  }

  /** What stands in the way of the sector at a place, if anything, in the order it is met. */
  function ErrorAt(v: Volume, segment: nat, slot: nat): Option<Error> {
    if segment >= TWO_64 then Some(SegmentOverflow)
    else if IndexName(v.zipBase, segment) !in v.archive then Some(MissingEntry(IndexName(v.zipBase, segment)))
    else if SegmentName(v.zipBase, segment) !in v.archive then Some(MissingEntry(SegmentName(v.zipBase, segment)))
    else
      var index, bevy := v.archive[IndexName(v.zipBase, segment)], v.archive[SegmentName(v.zipBase, segment)];
      if |index| < 12 then Some(EmptySegmentIndex)
      else
        match ChunkBounds(index, slot)
        case Err(e) => Some(e)
        case Ok((start, end)) =>
          if end > |bevy| then Some(BoundsExceedBevy(start, end, |bevy|))
          else if PieceStart(segment, v.chunksPerSegment) + slot >= TWO_64 then Some(ChunkIdOverflow)
          else None
  }

  /** The place after slot `slot - 1` of a segment: its next slot, or the start of the next segment. */
  function Settle(v: Volume, segment: nat, slot: nat): (nat, nat) {
    if slot == 0 || slot < SlotCount(v, segment) then (segment, slot) else (segment + 1, 0)
  }

  /** The place a run from (segment, slot) would turn to after the sectors `ss`. */
  function NextPlace(v: Volume, segment: nat, slot: nat, ss: seq<Sector>): (nat, nat) {
    if ss == [] then Settle(v, segment, slot) else Settle(v, ss[|ss| - 1].segment, ss[|ss| - 1].slot + 1)
  }

  /** How a plan ends: short of the size, with the error at the place after its last sector; otherwise well, unless the
      segment number then overflows. */
  ghost predicate EndsRight(v: Volume, segment: u64, slot: nat, produced: nat) {
    var ss, plan := Taken(v, segment, slot, produced), Plan(v, segment, slot, produced);
    var (s, j) := NextPlace(v, segment, slot, ss);
    var last := if ss == [] then segment else ss[|ss| - 1].segment;
    if produced + |Concat(Plains(ss))| < v.size then plan.Err? && ErrorAt(v, s, j) == Some(plan.error)
    else if (ss != [] || slot > 0) && last + 1 >= TWO_64 then plan == Err(SegmentOverflow)
    else plan.Ok?
  }

  /** One unfolding of what is taken. */
  lemma TakenStep(v: Volume, segment: u64, slot: nat, produced: nat)
    ensures var index := Entry(v.archive, IndexName(v.zipBase, segment));
            var bevy := Entry(v.archive, SegmentName(v.zipBase, segment));
            var ss := Taken(v, segment, slot, produced);
            if slot == 0 && produced >= v.size then ss == []
            else if index.Err? || bevy.Err? || |index.value| / INDEX_ENTRY == 0 then ss == []
            else if slot < |index.value| / INDEX_ENTRY && produced < v.size then
              match SectorAt(v, segment, slot, index.value, bevy.value)
              case Err(_) => ss == []
              case Ok(s) => ss == [s] + Taken(v, segment, slot + 1, Min(v.size, produced + |s.plain|))
            else if segment + 1 >= TWO_64 then ss == []
            else ss == Taken(v, segment + 1, 0, produced)
  {
    hide SectorAt, SegmentName, IndexName;
  }

  /** The sector at a place can be taken exactly when nothing stands in its way. */
  lemma ErrorAtIs(v: Volume, segment: u64, slot: nat)
    ensures var index := Entry(v.archive, IndexName(v.zipBase, segment));
            var bevy := Entry(v.archive, SegmentName(v.zipBase, segment));
            ErrorAt(v, segment, slot) ==
            if index.Err? then Some(index.error)
            else if bevy.Err? then Some(bevy.error)
            else if |index.value| / INDEX_ENTRY == 0 then Some(EmptySegmentIndex)
            else match SectorAt(v, segment, slot, index.value, bevy.value)
                 case Err(e) => Some(e)
                 case Ok(_) => None
  {
    hide ChunkBounds, SegmentName, PieceStart;
  }

  /** Where a sector can be taken, the plan ends as it does after that sector. */
  lemma SectorEnds(v: Volume, segment: u64, slot: nat, produced: nat)
    requires slot < SlotCount(v, segment) && produced < v.size
    requires Entry(v.archive, SegmentName(v.zipBase, segment)).Ok? && ErrorAt(v, segment, slot).None?
    requires var index := Entry(v.archive, IndexName(v.zipBase, segment)).value;
             var bevy := Entry(v.archive, SegmentName(v.zipBase, segment)).value;
             var s := SectorAt(v, segment, slot, index, bevy);
             s.Ok? && EndsRight(v, segment, slot + 1, Min(v.size, produced + |s.value.plain|))
    ensures EndsRight(v, segment, slot, produced)
  {
    hide SegmentName, Plan, Taken, ErrorAt, SectorAt, Plains, Concat;
    PlanStep(v, segment, slot, produced);
    TakenStep(v, segment, slot, produced);
    NoPlains();
    var index := Entry(v.archive, IndexName(v.zipBase, segment)).value;
    var bevy := Entry(v.archive, SegmentName(v.zipBase, segment)).value;
    var s := SectorAt(v, segment, slot, index, bevy).value;
    SectorPlace(v, segment, slot, index, bevy);
    PlainsCons(s, Taken(v, segment, slot + 1, Min(v.size, produced + |s.plain|)));
  }

  lemma SectorPlace(v: Volume, segment: nat, slot: nat, index: seq<Byte>, bevy: seq<Byte>)
    requires SectorAt(v, segment, slot, index, bevy).Ok?
    ensures var s := SectorAt(v, segment, slot, index, bevy).value; s.segment == segment && s.slot == slot
  {
    hide ChunkBounds, PieceStart;
  }

  /** At the end of a segment the plan ends as it does from the next one on. */
  lemma TurnEnds(v: Volume, segment: u64, slot: nat, produced: nat)
    requires slot == SlotCount(v, segment) || produced >= v.size
    requires 0 < slot <= SlotCount(v, segment) && Entry(v.archive, SegmentName(v.zipBase, segment)).Ok?
    requires segment + 1 < TWO_64 ==> EndsRight(v, segment + 1, 0, produced)
    ensures EndsRight(v, segment, slot, produced)
  {
    hide SegmentName, Plan, Taken, SectorAt, Plains, Concat;
    PlanStep(v, segment, slot, produced);
    TakenStep(v, segment, slot, produced);
    NoPlains();
    if segment + 1 < TWO_64 {
      hide ErrorAt;
      PlanStep(v, segment + 1, 0, produced);
      TakenStep(v, segment + 1, 0, produced);
    }
  }

  lemma {:induction false} PlanEndsRight(v: Volume, segment: u64, slot: nat, produced: nat)
    requires produced <= v.size && slot <= SlotCount(v, segment)
    requires slot > 0 ==> Entry(v.archive, SegmentName(v.zipBase, segment)).Ok?
    ensures EndsRight(v, segment, slot, produced)
    decreases TWO_64 - segment, SlotCount(v, segment) - slot
  {
    hide SegmentName, Plan, Taken, ErrorAt, SectorAt, Plains, Concat;
    NoPlains();
    PlanStep(v, segment, slot, produced);
    TakenStep(v, segment, slot, produced);
    ErrorAtIs(v, segment, slot);
    if slot > 0 && (slot == SlotCount(v, segment) || produced >= v.size) {
      if segment + 1 < TWO_64 {
        PlanEndsRight(v, segment + 1, 0, produced);
      }
      hide EndsRight;
      TurnEnds(v, segment, slot, produced);
    } else if produced < v.size && ErrorAt(v, segment, slot).None? {
      var index := Entry(v.archive, IndexName(v.zipBase, segment)).value;
      var bevy := Entry(v.archive, SegmentName(v.zipBase, segment)).value;
      var s := SectorAt(v, segment, slot, index, bevy).value;
      PlanEndsRight(v, segment, slot + 1, Min(v.size, produced + |s.plain|));
      hide EndsRight;
      SectorEnds(v, segment, slot, produced);
    }
  }

  /** On any archive, when decryption fails: exactly when the genuine sectors in a row from the first one on stop
      short of the declared size, with the error that stands at the place after them (or when segment 2^64 - 1 was
      needed). */
  lemma DecryptionFailsIff(v: Volume)
    ensures var ss := Taken(v, 0, 0, 0);
            var (s, j) := NextPlace(v, 0, 0, ss);
            if |Concat(Plains(ss))| < v.size then Decrypted(v).Err? && ErrorAt(v, s, j) == Some(Decrypted(v).error)
            else if ss != [] && ss[|ss| - 1].segment + 1 >= TWO_64 then Decrypted(v) == Err(SegmentOverflow)
            else Decrypted(v).Ok?
    ensures forall i :: 0 <= i < |Taken(v, 0, 0, 0)| ==> Genuine(v, Taken(v, 0, 0, 0)[i])
    ensures Consecutive(v, Taken(v, 0, 0, 0))
  {
    hide Plan, Taken, Plains, ErrorAt, Genuine, Follows;
    PlanEndsRight(v, 0, 0, 0);
    TakenWalks(v, 0, 0, 0);
  }

  /** Every success returns exactly the declared size: genuine sectors in (segment, slot) order from the first one on,
      as few as will do, put together and trimmed. */
  lemma SuccessIsTrimmedWalk(v: Volume)
    requires Decrypted(v).Ok?
    ensures var ss := Plan(v, 0, 0, 0).value;
            && |Decrypted(v).value| == v.size && Decrypted(v).value == Concat(Plains(ss))[..v.size]
            && (forall i :: 0 <= i < |ss| ==> Genuine(v, ss[i])) && Consecutive(v, ss)
            && (ss != [] ==> ss[0].segment == 0 && ss[0].slot == 0 && |Concat(Plains(ss[..|ss| - 1]))| < v.size)
  {
    hide Plan, Taken, Plains, Genuine, Follows;
    PlanIsTaken(v, 0, 0, 0);
    TakenWalks(v, 0, 0, 0);
    PlanCovers(v, 0, 0, 0);
  }

  // ---- tweaks ----

  /** The segment sector `i` belongs to ends there: sector `i + 1` opens the next one. */
  predicate SegmentEnds(ss: seq<Sector>, i: nat) {
    i + 1 < |ss| && ss[i + 1].segment == ss[i].segment + 1
  }

  lemma TweakStep(v: Volume, a: Sector, b: Sector)
    requires Follows(v, a, b)
    ensures b.segment == a.segment ==> Tweak(v, b) == Tweak(v, a) + 1
    ensures b.segment == a.segment + 1 ==> Tweak(v, b) - Tweak(v, a) == v.chunksPerSegment - SlotCount(v, a.segment) + 1
  {
    hide PieceStart;
    PieceNext(a.segment, v.chunksPerSegment);
  }

  lemma {:induction false} IncreasingFrom(v: Volume, ss: seq<Sector>, i: nat, j: nat)
    requires forall k {:trigger Tweak(v, ss[k])} :: 0 <= k < |ss| - 1 ==> Tweak(v, ss[k]) < Tweak(v, ss[k + 1])
    requires i < j < |ss|
    ensures Tweak(v, ss[i]) < Tweak(v, ss[j])
    decreases j
  {
    hide Tweak;
    assert Tweak(v, ss[j - 1]) < Tweak(v, ss[j]);
    if i < j - 1 {
      IncreasingFrom(v, ss, i, j - 1);
    }
  }

  lemma {:induction false} BackInSegment(v: Volume, ss: seq<Sector>, i: nat, d: nat)
    requires Consecutive(v, ss) && i < |ss| && d <= ss[i].slot
    requires ss != [] ==> ss[0].slot == 0
    ensures d <= i && ss[i - d].segment == ss[i].segment && ss[i - d].slot == ss[i].slot - d
  {
    if d > 0 {
      BackInSegment(v, ss, i, d - 1);
      var k := i - (d - 1);
      assert k > 0;
      assert Follows(v, ss[k - 1], ss[k - 1 + 1]);
    }
  }

  ghost predicate DistinctTweaks(v: Volume, ss: seq<Sector>) {
    forall i, j :: 0 <= i < j < |ss| ==> Tweak(v, ss[i]) != Tweak(v, ss[j])
  }

  ghost predicate IncreasingTweaks(v: Volume, ss: seq<Sector>) {
    forall i, j :: 0 <= i < j < |ss| ==> Tweak(v, ss[i]) < Tweak(v, ss[j])
  }

  /** Every segment the run leaves behind holds at most the declared number of chunks. */
  ghost predicate NotOverfull(v: Volume, ss: seq<Sector>) {
    forall i :: 0 <= i < |ss| && SegmentEnds(ss, i) ==> SlotCount(v, ss[i].segment) <= v.chunksPerSegment
  }

  lemma OverfullCollides(v: Volume, ss: seq<Sector>, i: nat)
    requires Consecutive(v, ss) && ss != [] && ss[0].slot == 0
    requires SegmentEnds(ss, i) && SlotCount(v, ss[i].segment) > v.chunksPerSegment
    ensures exists k :: 0 <= k <= i && Tweak(v, ss[k]) == Tweak(v, ss[i + 1])
  {
    hide PieceStart;
    assert Follows(v, ss[i], ss[i + 1]);
    var d := SlotCount(v, ss[i].segment) - 1 - v.chunksPerSegment;
    BackInSegment(v, ss, i, d);
    PieceNext(ss[i].segment, v.chunksPerSegment);
    assert Tweak(v, ss[i - d]) == Tweak(v, ss[i + 1]);
  }

  /** Over a run, tweaks strictly increase, and equally no two chunks share one, exactly when no segment left behind
      is overfull. */
  lemma TweaksIffNotOverfull(v: Volume, ss: seq<Sector>)
    requires Consecutive(v, ss) && (ss != [] ==> ss[0].slot == 0)
    ensures IncreasingTweaks(v, ss) <==> NotOverfull(v, ss)
    ensures DistinctTweaks(v, ss) <==> NotOverfull(v, ss)
  {
    hide Tweak, SlotCount, Follows;
    if NotOverfull(v, ss) {
      forall k | 0 <= k < |ss| - 1
        ensures Tweak(v, ss[k]) < Tweak(v, ss[k + 1])
      {
        TweakStep(v, ss[k], ss[k + 1]);
        FollowsEither(v, ss[k], ss[k + 1]);
        assert SegmentEnds(ss, k) ==> SlotCount(v, ss[k].segment) <= v.chunksPerSegment;
      }
      forall i, j | 0 <= i < j < |ss|
        ensures Tweak(v, ss[i]) < Tweak(v, ss[j])
      {
        IncreasingFrom(v, ss, i, j);
      }
    } else {
      var i :| 0 <= i < |ss| && SegmentEnds(ss, i) && SlotCount(v, ss[i].segment) > v.chunksPerSegment;
      OverfullCollides(v, ss, i);
      var k :| 0 <= k <= i && Tweak(v, ss[k]) == Tweak(v, ss[i + 1]);
      assert !DistinctTweaks(v, ss) && !IncreasingTweaks(v, ss);
    }
  }

  lemma FollowsEither(v: Volume, a: Sector, b: Sector)
    requires Follows(v, a, b)
    ensures b.segment == a.segment || b.segment == a.segment + 1
  {
  }

  /** The k-th chunk of a run uses tweak k throughout exactly when every segment left behind is full. */
  lemma TweakIsPositionIffFull(v: Volume, ss: seq<Sector>)
    requires Consecutive(v, ss) && (ss != [] ==> ss[0].segment == 0 && ss[0].slot == 0)
    ensures (forall k :: 0 <= k < |ss| ==> Tweak(v, ss[k]) == k) <==>
            (forall i :: 0 <= i < |ss| && SegmentEnds(ss, i) ==> SlotCount(v, ss[i].segment) == v.chunksPerSegment)
  {
    hide SlotCount, Follows, Tweak;
    if forall i :: 0 <= i < |ss| && SegmentEnds(ss, i) ==> SlotCount(v, ss[i].segment) == v.chunksPerSegment {
      forall k | 0 <= k < |ss|
        ensures Tweak(v, ss[k]) == k
      {
        FullTweak(v, ss, k);
      }
    }
    if forall k :: 0 <= k < |ss| ==> Tweak(v, ss[k]) == k {
      forall i | 0 <= i < |ss| && SegmentEnds(ss, i)
        ensures SlotCount(v, ss[i].segment) == v.chunksPerSegment
      {
        TweakStep(v, ss[i], ss[i + 1]);
      }
    }
  }

  lemma {:induction false} FullTweak(v: Volume, ss: seq<Sector>, k: nat)
    requires Consecutive(v, ss) && k < |ss| && ss[0].segment == 0 && ss[0].slot == 0
    requires forall i :: 0 <= i < |ss| && SegmentEnds(ss, i) ==> SlotCount(v, ss[i].segment) == v.chunksPerSegment
    ensures Tweak(v, ss[k]) == k
  {
    hide SlotCount, Follows, PieceStart;
    if k == 0 {
      PieceNext(0, v.chunksPerSegment);
    } else {
      FullTweak(v, ss, k - 1);
      assert Follows(v, ss[k - 1], ss[k - 1 + 1]);
      TweakStep(v, ss[k - 1], ss[k]);
      FollowsEither(v, ss[k - 1], ss[k]);
      assert SegmentEnds(ss, k - 1) ==> SlotCount(v, ss[k - 1].segment) == v.chunksPerSegment;
    }
  }

  /** Over every run, successful or stopped by an error, on any archive: the tweaks used strictly increase, and equally
      no two chunks share one, exactly when no segment left behind is overfull; so they do if no index is. */
  lemma RunTweaks(v: Volume)
    ensures IncreasingTweaks(v, Taken(v, 0, 0, 0)) <==> NotOverfull(v, Taken(v, 0, 0, 0))
    ensures DistinctTweaks(v, Taken(v, 0, 0, 0)) <==> NotOverfull(v, Taken(v, 0, 0, 0))
    ensures (forall s: nat :: SlotCount(v, s) <= v.chunksPerSegment) ==> IncreasingTweaks(v, Taken(v, 0, 0, 0))
    ensures Plan(v, 0, 0, 0).Ok? ==> Plan(v, 0, 0, 0).value == Taken(v, 0, 0, 0)
  {
    hide Taken, Plan, Genuine, Follows, SlotCount, Tweak;
    TakenWalks(v, 0, 0, 0);
    TweaksIffNotOverfull(v, Taken(v, 0, 0, 0));
    if Plan(v, 0, 0, 0).Ok? {
      PlanIsTaken(v, 0, 0, 0);
    }
  }

  /** Over every run, the k-th chunk uses tweak k throughout exactly when every segment left behind is full. */
  lemma RunTweaksArePositions(v: Volume)
    ensures var ss := Taken(v, 0, 0, 0);
            (forall k :: 0 <= k < |ss| ==> Tweak(v, ss[k]) == k) <==>
            (forall i :: 0 <= i < |ss| && SegmentEnds(ss, i) ==> SlotCount(v, ss[i].segment) == v.chunksPerSegment)
  {
    hide Taken, Genuine, Follows, SlotCount, Tweak;
    TakenWalks(v, 0, 0, 0);
    TweakIsPositionIffFull(v, Taken(v, 0, 0, 0));
  }
}
