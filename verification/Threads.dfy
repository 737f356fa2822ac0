/** Any number of threads calling `read_at` at once, one step at a time, with lock holders that may die. */
module Threads {
  import opened Prelude
  import opened VirtualDisk
  import opened Exactness
  import opened Runs
  import opened SharedSource

  datatype Phase =
    | Idle
    | Waiting(want: nat)
    | Locked(want: nat)
    | Filling(want: nat, total: nat)
    | Done(result: Result<nat, Error>)
    | Dead

  /** A thread's latest call: where it reads, what its buffer held at the call, and what it holds now. */
  datatype Thread = Thread(offset: u64, original: seq<Byte>, buf: seq<Byte>, phase: Phase)

  /** The shared cursor, the mutex (its holder and its poison flag) and the threads. */
  datatype System = System(pos: u64, holder: Option<nat>, poisoned: bool, threads: seq<Thread>)

  datatype Action =
    | Call(t: nat, offset: u64, buf: seq<Byte>)
    | Acquire(t: nat)
    | SeekToOffset(t: nat)
    | ReadSome(t: nat)
    | Die(t: nat, cursor: u64)

  predicate InSection(ph: Phase) {
    ph.Locked? || ph.Filling?
  }

  function With(s: System, t: nat, th: Thread): System
    requires t < |s.threads|
  {
    s.(threads := s.threads[t := th])
  }

  /** Leaving the section drops the guard. */
  function Leave(s: System, t: nat, result: Result<nat, Error>): System
    requires t < |s.threads|
  {
    With(s, t, s.threads[t].(phase := Done(result))).(holder := None)
  }

  /** One step, or `None` if it is not possible now. */
  function Apply(im: Image, s: System, a: Action): Option<System> {
    if a.t >= |s.threads| then None
    else
      var th := s.threads[a.t];
      match a
      case Call(t, offset, buf) =>
        if !(th.phase.Idle? || th.phase.Done?) then None
        else if offset >= im.virtualSize then Some(With(s, t, Thread(offset, buf, buf, Done(Ok(0)))))
        else Some(With(s, t, Thread(offset, buf, buf, Waiting(Min(|buf|, im.virtualSize - offset)))))
      case Acquire(t) =>
        // A poisoned lock is taken like any other.
        if !(th.phase.Waiting? && s.holder.None?) then None
        else Some(With(s, t, th.(phase := Locked(th.phase.want))).(holder := Some(t)))
      case SeekToOffset(t) =>
        if !th.phase.Locked? then None
        else
          (match SeekTo(im, s.pos, Start(th.offset))
           case Err(e) => Some(Leave(s, t, Err(e)))
           case Ok(pos) => Some(With(s, t, th.(phase := Filling(th.phase.want, 0))).(pos := pos)))
      case ReadSome(t) =>
        if !th.phase.Filling? then None
        else
          var want, total := th.phase.want, th.phase.total;
          if total >= want || want > |th.buf| then Some(Leave(s, t, Ok(total)))
          else
            (match ReadBytes(im, s.pos, want - total)
             case Err(e) => Some(Leave(s, t, Err(e)))
             case Ok(bytes) =>
               if bytes == [] then Some(Leave(s, t, Ok(total)))
               else
                 var buf := th.buf[..total] + bytes + th.buf[total + |bytes|..];
                 Some(With(s, t, th.(buf := buf, phase := Filling(want, total + |bytes|))).(pos := s.pos + |bytes|)))
      case Die(t, cursor) =>
        // A holder that dies poisons the lock and may leave the cursor anywhere.
        if th.phase.Dead? then None
        else if InSection(th.phase) then
          Some(With(s, t, th.(phase := Dead)).(holder := None, poisoned := true, pos := cursor))
        else Some(With(s, t, th.(phase := Dead)))
  }

  /** Every step of the schedule is possible, one after the other. */
  function Schedule(im: Image, s: System, actions: seq<Action>): Option<System>
    decreases |actions|
  {
    if actions == [] then Some(s)
    else
      match Apply(im, s, actions[0])
      case None => None
      case Some(next) => Schedule(im, next, actions[1..])
  }

  predicate Initial(s: System) {
    s.holder.None? && forall t :: 0 <= t < |s.threads| ==> s.threads[t].phase.Idle?
  }

  // ---- what every step keeps ----

  /** Whoever is between taking and dropping the guard is the holder, so there is at most one. */
  ghost predicate Exclusive(s: System) {
    && (s.holder.Some? ==> s.holder.value < |s.threads|)
    && forall t :: 0 <= t < |s.threads| ==> (InSection(s.threads[t].phase) <==> s.holder == Some(t))
  }

  /** What is already in the buffer, and what the fill loop would add from here, is the whole call's outcome. */
  ghost predicate FillingOk(im: Image, pos: u64, th: Thread)
    requires th.phase.Filling?
  {
    var want, total := th.phase.want, th.phase.total;
    && |th.buf| == |th.original|
    && total <= want == Min(|th.original|, im.virtualSize - th.offset) && pos == th.offset + total
    && var rest := FillFrom(im, pos, want - total);
       ReadAtOutcome(im, th.offset, |th.original|) == Outcome(th.buf[..total] + rest.written, rest.failure)
  }

  /** A call that has read nothing yet, and how much it wants. */
  predicate Started(im: Image, th: Thread, want: nat) {
    && th.buf == th.original && th.offset < im.virtualSize
    && want == Min(|th.buf|, im.virtualSize - th.offset)
  }

  ghost predicate ThreadOk(im: Image, pos: u64, th: Thread) {
    match th.phase
    case Idle => true
    case Waiting(want) => Started(im, th, want)
    case Locked(want) => Started(im, th, want)
    case Filling(want, total) =>
      && th.offset < im.virtualSize && FillingOk(im, pos, th)
      && th.buf[total..] == th.original[total..]
    case Done(result) =>
      var o := ReadAtOutcome(im, th.offset, |th.original|);
      result == ResultOf(o) && th.buf == o.written + th.original[|o.written|..]
    case Dead => true
  }

  ghost predicate Inv(im: Image, s: System) {
    && Exclusive(s)
    && forall t :: 0 <= t < |s.threads| ==> ThreadOk(im, s.pos, s.threads[t])
  }

  /** Only the thread that moved, and the cursor only under its holder, need looking at again. */
  lemma OnlyMover(im: Image, s: System, s': System, t: nat)
    requires Inv(im, s) && t < |s.threads| && |s'.threads| == |s.threads| && Exclusive(s')
    requires forall u :: 0 <= u < |s.threads| && u != t ==> s'.threads[u] == s.threads[u]
    requires s'.pos == s.pos || InSection(s.threads[t].phase)
    requires ThreadOk(im, s'.pos, s'.threads[t])
    ensures Inv(im, s')
  {
    hide FillingOk;
    forall u | 0 <= u < |s.threads|
      ensures ThreadOk(im, s'.pos, s'.threads[u])
    {
      assert ThreadOk(im, s.pos, s.threads[u]);
      if u != t && s'.pos != s.pos {
        assert s.holder == Some(t);
      }
    }
  }

  lemma StepKeepsExclusive(im: Image, s: System, a: Action)
    requires Exclusive(s) && Apply(im, s, a).Some?
    ensures Exclusive(Apply(im, s, a).value)
    ensures var s' := Apply(im, s, a).value;
            && |s'.threads| == |s.threads| && (s'.pos == s.pos || InSection(s.threads[a.t].phase))
            && forall u :: 0 <= u < |s.threads| && u != a.t ==> s'.threads[u] == s.threads[u]
  {
    hide SeekTo, ReadBytes;
  }

  lemma ReadStepOk(im: Image, pos: u64, th: Thread)
    requires th.phase.Filling? && ThreadOk(im, pos, th) && th.phase.total < th.phase.want
    ensures match ReadBytes(im, pos, th.phase.want - th.phase.total)
            case Err(e) => ThreadOk(im, pos, th.(phase := Done(Err(e))))
            case Ok(bytes) =>
              var total := th.phase.total;
              if bytes == [] then ThreadOk(im, pos, th.(phase := Done(Ok(total))))
              else
                && total + |bytes| <= |th.buf|
                && ThreadOk(im, pos + |bytes|, th.(buf := th.buf[..total] + bytes + th.buf[total + |bytes|..],
                                                   phase := Filling(th.phase.want, total + |bytes|)))
  {
    hide ReadBytes, FillFrom, ReadAtOutcome;
    var want, total := th.phase.want, th.phase.total;
    FillStep(im, pos, want - total);
    var r := ReadBytes(im, pos, want - total);
    var got := th.buf[..total];
    assert got + [] == got && th.buf == got + th.original[total..];
    if r.Ok? && r.value != [] {
      var rest := FillFrom(im, pos + |r.value|, want - total - |r.value|);
      assert got + (r.value + rest.written) == (got + r.value) + rest.written;
      var buf := got + r.value + th.buf[total + |r.value|..];
      assert buf[..total + |r.value|] == got + r.value;
      assert buf[total + |r.value|..] == th.buf[total + |r.value|..] == th.original[total + |r.value|..];
    }
  }

  lemma FilledOk(im: Image, pos: u64, th: Thread)
    requires th.phase.Filling? && ThreadOk(im, pos, th) && th.phase.total >= th.phase.want
    ensures ThreadOk(im, pos, th.(phase := Done(Ok(th.phase.total))))
  {
    hide FillFrom, ReadAtOutcome;
    FillStep(im, pos, 0);
    var got := th.buf[..th.phase.total];
    assert got + [] == got && th.buf == got + th.original[th.phase.total..];
  }

  lemma SeekStepOk(im: Image, pos: u64, th: Thread)
    requires th.phase.Locked? && ThreadOk(im, pos, th)
    ensures match SeekTo(im, pos, Start(th.offset))
            case Err(e) => ThreadOk(im, pos, th.(phase := Done(Err(e))))
            case Ok(p) => ThreadOk(im, p, th.(phase := Filling(th.phase.want, 0)))
  {
    hide FillFrom;
    assert th.buf[..0] == [] && th.buf[0..] == th.buf;
    var rest := FillFrom(im, th.offset, th.phase.want);
    assert [] + rest.written == rest.written;
  }

  lemma StepKeepsInv(im: Image, s: System, a: Action)
    requires Inv(im, s) && Apply(im, s, a).Some?
    ensures Inv(im, Apply(im, s, a).value)
  {
    hide SeekTo, ReadBytes, ReadAtOutcome, FillFrom;
    StepKeepsExclusive(im, s, a);
    var s', th := Apply(im, s, a).value, s.threads[a.t];
    assert ThreadOk(im, s.pos, th);
    assert ThreadOk(im, s'.pos, s'.threads[a.t]) by {
      match a
      case Call(t, offset, buf) => CallOk(im, s.pos, offset, buf);
      case Acquire(_) =>
      case SeekToOffset(_) => SeekStepOk(im, s.pos, th);
      case ReadSome(_) =>
        if th.phase.total < th.phase.want {
          ReadStepOk(im, s.pos, th);
        } else {
          FilledOk(im, s.pos, th);
        }
      case Die(_, _) =>
    }
    OnlyMover(im, s, s', a.t);
  }

  lemma CallOk(im: Image, pos: u64, offset: u64, buf: seq<Byte>)
    ensures offset >= im.virtualSize ==> ThreadOk(im, pos, Thread(offset, buf, buf, Done(Ok(0))))
  {
    assert buf[0..] == buf;
  }

  /** Over every schedule, on any image: each completed call returned and wrote exactly what it would have alone,
      whatever the other threads did and wherever dying holders left the cursor. */
  lemma {:induction false} EveryCallIsAtomic(im: Image, s: System, actions: seq<Action>)
    requires Inv(im, s) && Schedule(im, s, actions).Some?
    ensures Inv(im, Schedule(im, s, actions).value)
    decreases |actions|
  {
    hide Inv, Apply;
    if actions != [] {
      StepKeepsInv(im, s, actions[0]);
      EveryCallIsAtomic(im, Apply(im, s, actions[0]).value, actions[1..]);
    }
  }

  lemma InitialOk(im: Image, s: System)
    requires Initial(s)
    ensures Inv(im, s)
  {
  }

  // ---- on a well-formed image ----

  /** Any threads, any offsets and buffers, any interleaving, any deaths: every completed call has written exactly its
      slice of the disk and left the rest of its buffer alone. */
  lemma CompletedCallsReadDisk(c: Container, s: System, actions: seq<Action>, t: nat)
    requires ReadsAgree(c) && Open(c).virtualSize <= TWO_63
    requires Initial(s) && Schedule(Open(c), s, actions).Some?
    requires var s' := Schedule(Open(c), s, actions).value; t < |s'.threads| && s'.threads[t].phase.Done?
    ensures var th := Schedule(Open(c), s, actions).value.threads[t];
            var n := Owed(Open(c), th.offset, |th.original|);
            && th.phase.result == Ok(n)
            && th.buf == DiskBytes(c, th.offset, th.offset + n) + th.original[n..]
  {
    hide Schedule, ReadAtOutcome, DiskBytes, ReadsAgree, Open, Owed;
    InitialOk(Open(c), s);
    EveryCallIsAtomic(Open(c), s, actions);
    var s' := Schedule(Open(c), s, actions).value;
    var th := s'.threads[t];
    assert ThreadOk(Open(c), s'.pos, th);
    ReadAtIsDisk(c, th.offset, |th.original|);
    OwedBelow(Open(c), th.offset);
  }

  lemma OwedBelow(im: Image, offset: u64)
    requires im.virtualSize <= TWO_63
    ensures offset < TWO_63 || offset >= im.virtualSize
  {
  }

  /** A thread with bytes to go gets some from its next read. */
  predicate GetsBytes(im: Image, s: System, t: nat)
    requires t < |s.threads| && s.threads[t].phase.Filling? && s.threads[t].phase.total < s.threads[t].phase.want
  {
    var th := s.threads[t];
    var r := ReadBytes(im, s.pos, th.phase.want - th.phase.total);
    r.Ok? && r.value != [] && th.phase.want <= |th.buf|
  }

  /** After the schedule, thread `t` is in its fill loop with bytes to go. */
  predicate InLoop(im: Image, s: System, actions: seq<Action>, t: nat) {
    && Initial(s) && Schedule(im, s, actions).Some?
    && var s' := Schedule(im, s, actions).value;
       t < |s'.threads| && s'.threads[t].phase.Filling? && s'.threads[t].phase.total < s'.threads[t].phase.want
  }

  /** The short-read guard in the fill loop never fires if every byte of the disk can be found. */
  lemma NoMidLoopEnd(im: Image, s: System, actions: seq<Action>, t: nat)
    requires forall p: u64 :: p < im.virtualSize ==> FindsByte(im, p)
    requires InLoop(im, s, actions, t)
    ensures GetsBytes(im, Schedule(im, s, actions).value, t)
  {
    hide Schedule, ReadBytes, FindsByte, FillFrom, ReadAtOutcome;
    InitialOk(im, s);
    EveryCallIsAtomic(im, s, actions);
    var s' := Schedule(im, s, actions).value;
    var th := s'.threads[t];
    assert ThreadOk(im, s'.pos, th);
    assert FindsByte(im, s'.pos);
    FindsMeans(im, s'.pos, th.phase.want - th.phase.total);
  }

  function FreshSystem(): System {
    System(0, None, false, [Thread(0, [], [], Idle)])
  }

  function OneCall(p: u64): seq<Action> {
    [Call(0, p, [0]), Acquire(0), SeekToOffset(0)]
  }

  /** A single caller is brought to the loop at any position a seek accepts. */
  lemma OneCallReaches(im: Image, p: u64)
    requires p < im.virtualSize && p < TWO_63
    ensures InLoop(im, FreshSystem(), OneCall(p), 0)
    ensures var s := Schedule(im, FreshSystem(), OneCall(p)).value;
            s.pos == p && s.threads[0].phase == Filling(1, 0)
  {
    var s0, steps := FreshSystem(), OneCall(p);
    assert steps[1..] == [Acquire(0), SeekToOffset(0)];
    assert steps[1..][1..] == [SeekToOffset(0)] && steps[1..][1..][1..] == [];
    var s1 := Apply(im, s0, steps[0]).value;
    assert s1.threads[0] == Thread(p, [0], [0], Waiting(1));
    var s2 := Apply(im, s1, Acquire(0)).value;
    assert s2.threads[0] == Thread(p, [0], [0], Locked(1));
    var s3 := Apply(im, s2, SeekToOffset(0)).value;
    assert Schedule(im, s3, []) == Some(s3);
    assert Schedule(im, s2, [SeekToOffset(0)]) == Some(s3);
    assert Schedule(im, s1, steps[1..]) == Some(s3);
    assert Schedule(im, s0, steps) == Some(s3);
  }

  /** On any disk of at most 2^63 bytes: over all threads and schedules the short-read guard stays silent, and no read
      in the loop fails, exactly when every byte of the disk can be found. */
  lemma GuardSilentIff(im: Image)
    requires im.virtualSize <= TWO_63
    ensures (forall s: System, actions: seq<Action>, t: nat {:trigger InLoop(im, s, actions, t)} ::
               InLoop(im, s, actions, t) ==> GetsBytes(im, Schedule(im, s, actions).value, t))
            <==> forall p: u64 :: p < im.virtualSize ==> FindsByte(im, p)
  {
    hide FindsByte, ReadBytes, Schedule;
    if forall s: System, actions: seq<Action>, t: nat {:trigger InLoop(im, s, actions, t)} ::
        InLoop(im, s, actions, t) ==> GetsBytes(im, Schedule(im, s, actions).value, t) {
      forall p: u64 | p < im.virtualSize
        ensures FindsByte(im, p)
      {
        OneCallReaches(im, p);
        assert GetsBytes(im, Schedule(im, FreshSystem(), OneCall(p)).value, 0);
        FindsMeans(im, p, 1);
      }
    }
    if forall p: u64 :: p < im.virtualSize ==> FindsByte(im, p) {
      forall s: System, actions: seq<Action>, t: nat {:trigger InLoop(im, s, actions, t)} | InLoop(im, s, actions, t)
        ensures GetsBytes(im, Schedule(im, s, actions).value, t)
      {
        NoMidLoopEnd(im, s, actions, t);
      }
    }
  }

  // ---- progress ----

  /** At most how many more steps a thread can take in its current call. */
  function StepsLeft(th: Thread): nat {
    match th.phase
    case Idle => 1
    case Waiting(want) => want + 4
    case Locked(want) => want + 3
    case Filling(want, total) => Max(0, want - total) + 2
    case Done(_) => 1
    case Dead => 0
  }

  function TotalLeft(threads: seq<Thread>): nat {
    if threads == [] then 0 else StepsLeft(threads[0]) + TotalLeft(threads[1..])
  }

  lemma {:induction false} TotalDrops(threads: seq<Thread>, t: nat, th: Thread)
    requires t < |threads| && StepsLeft(th) < StepsLeft(threads[t])
    ensures TotalLeft(threads[t := th]) < TotalLeft(threads)
  {
    var after := threads[t := th];
    if t == 0 {
      assert after[1..] == threads[1..];
    } else {
      assert after[1..] == threads[1..][t - 1 := th];
      TotalDrops(threads[1..], t - 1, th);
    }
  }

  lemma StepUsesOne(im: Image, s: System, a: Action)
    requires Apply(im, s, a).Some? && !a.Call?
    ensures TotalLeft(Apply(im, s, a).value.threads) < TotalLeft(s.threads)
  {
    hide SeekTo, ReadBytes;
    var s' := Apply(im, s, a).value;
    assert s'.threads == s.threads[a.t := s'.threads[a.t]];
    TotalDrops(s.threads, a.t, s'.threads[a.t]);
  }

  /** No lock holder, alive or dead, wedges the source: while some call waits, some thread can take a step of its
      call. */
  lemma NeverWedged(im: Image, s: System, t: nat)
    requires Inv(im, s) && t < |s.threads| && s.threads[t].phase.Waiting?
    ensures exists a: Action :: (a.Acquire? || a.SeekToOffset? || a.ReadSome?) && Apply(im, s, a).Some?
  {
    hide SeekTo, ReadBytes, ThreadOk;
    match s.holder
    case None => assert Apply(im, s, Acquire(t)).Some?;
    case Some(h) =>
      if s.threads[h].phase.Locked? {
        assert Apply(im, s, SeekToOffset(h)).Some?;
      } else {
        assert Apply(im, s, ReadSome(h)).Some?;
      }
  }

  /** A schedule that starts no new call is finite: its length is bounded by the steps the open calls have left. */
  lemma {:induction false} SchedulesEnd(im: Image, s: System, actions: seq<Action>)
    requires Schedule(im, s, actions).Some?
    requires forall a :: a in actions ==> !a.Call?
    ensures |actions| + TotalLeft(Schedule(im, s, actions).value.threads) <= TotalLeft(s.threads)
    decreases |actions|
  {
    hide SeekTo, ReadBytes;
    if actions != [] {
      assert actions[0] in actions;
      StepUsesOne(im, s, actions[0]);
      assert forall a :: a in actions[1..] ==> a in actions;
      SchedulesEnd(im, Apply(im, s, actions[0]).value, actions[1..]);
    }
  }

  /** After any schedule, no step of a call is possible exactly when no call is open: each thread is idle, done or dead.
      With `SchedulesEnd`, letting the threads run always ends, and ends there. */
  lemma StillIffFinished(im: Image, s: System, actions: seq<Action>)
    requires Initial(s) && Schedule(im, s, actions).Some?
    ensures var s' := Schedule(im, s, actions).value;
            (forall a: Action :: a.Acquire? || a.SeekToOffset? || a.ReadSome? ==> Apply(im, s', a).None?) <==>
            (forall th :: th in s'.threads ==> th.phase.Idle? || th.phase.Done? || th.phase.Dead?)
  {
    hide SeekTo, ReadBytes, Schedule, ThreadOk;
    InitialOk(im, s);
    EveryCallIsAtomic(im, s, actions);
    var s' := Schedule(im, s, actions).value;
    if forall a: Action :: a.Acquire? || a.SeekToOffset? || a.ReadSome? ==> Apply(im, s', a).None? {
      forall th | th in s'.threads
        ensures th.phase.Idle? || th.phase.Done? || th.phase.Dead?
      {
        var t :| 0 <= t < |s'.threads| && s'.threads[t] == th;
        if th.phase.Waiting? {
          NeverWedged(im, s', t);
        }
        assert Apply(im, s', SeekToOffset(t)).None? && Apply(im, s', ReadSome(t)).None?;
      }
    }
  }

  // ---- what recovering from poison buys ----

  /** The same step taken by a source that refuses a poisoned lock instead of recovering it. */
  function ApplyStrict(im: Image, s: System, a: Action): Option<System> {
    if a.Acquire? && s.poisoned then None else Apply(im, s, a)
  }

  function StrictSchedule(im: Image, s: System, actions: seq<Action>): Option<System>
    decreases |actions|
  {
    if actions == [] then Some(s)
    else
      match ApplyStrict(im, s, actions[0])
      case None => None
      case Some(next) => StrictSchedule(im, next, actions[1..])
  }

  /** Once a holder has died, such a source never finishes another waiting call: the thread waits for good, or dies. */
  lemma {:induction false} StrictSourceWedges(im: Image, s: System, actions: seq<Action>, t: nat)
    requires s.poisoned && s.holder.None?
    requires t < |s.threads| && (s.threads[t].phase.Waiting? || s.threads[t].phase.Dead?)
    requires StrictSchedule(im, s, actions).Some?
    ensures var s' := StrictSchedule(im, s, actions).value;
            t < |s'.threads| && (s'.threads[t].phase.Waiting? || s'.threads[t].phase.Dead?)
    decreases |actions|
  {
    hide SeekTo, ReadBytes;
    if actions != [] {
      StrictSourceWedges(im, ApplyStrict(im, s, actions[0]).value, actions[1..], t);
    }
  }
}
