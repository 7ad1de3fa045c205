/**
 * The geo job scheduler as interleaved atomic steps: schedule calls, the
 * program points of every worker goroutine, deadlines, shutdown, and the other
 * users of the heavy-task semaphore.
 */
module GeoJobProtocol {
  import opened Common
  import opened Lists

  datatype Kind = Enrich | ReloadAndEnrich | Maintenance

  /** The program points of run; the body points are those of the job itself. */
  datatype Pc =
    | GateFirst | AcquireSlot | LockWork | CheckCtx | CheckGen | GateAgain
    | BodyEdges | BodyGeoEdges | BodyReload | BodyEnrich
    | UnlockWork | ReleaseSlot | WgDone | Ended

  /** taken and released count this worker's operations on the semaphore. */
  datatype Worker = Worker(kind: Kind, gen: U64, pc: Pc, cancelled: bool, taken: nat, released: nat)

  /** cap is None when no limiter is installed. */
  datatype Config = Config(cap: Option<nat>, hasStore: bool, hasGeo: bool, hasGate: bool)

  /**
   * Workers are kept in the order in which they were scheduled. slots is the
   * fill level of the semaphore, others how many of those belong to other tasks,
   * started the workers whose job body began, in order.
   */
  datatype State = State(
    cfg: Config,
    gen: U64,
    cancel: Option<nat>,
    workers: seq<Worker>,
    workMu: Option<nat>,
    wg: nat,
    slots: nat,
    others: nat,
    started: seq<nat>)

  /**
   * In Step, flag is what the environment answers at that point: the gate gives
   * a reason to skip, the select took the slot, the store call failed. ranges
   * says whether the geo index has any range.
   */
  datatype Event =
    | Schedule(kind: Kind)
    | Deadline(i: nat)
    | ShutdownCancel
    | OtherAcquire
    | OtherRelease
    | Step(i: nat, flag: bool, ranges: bool)

  predicate InBody(pc: Pc) {
    pc.BodyEdges? || pc.BodyGeoEdges? || pc.BodyReload? || pc.BodyEnrich?
  }

  predicate HoldsWork(pc: Pc) {
    pc.CheckCtx? || pc.CheckGen? || pc.GateAgain? || InBody(pc) || pc.UnlockWork?
  }

  predicate HoldsSlot(pc: Pc) {
    pc.LockWork? || HoldsWork(pc) || pc.ReleaseSlot?
  }

  predicate BeforeSlot(pc: Pc) {
    pc.GateFirst? || pc.AcquireSlot?
  }

  function Init(cfg: Config): State {
    State(cfg, 0, None, [], None, 0, 0, 0, [])
  }

  // ---- the steps ----

  function CancelAt(ws: seq<Worker>, c: Option<nat>): seq<Worker> {
    if c.Some? && c.value < |ws| then ws[c.value := ws[c.value].(cancelled := true)] else ws
  }

  function DoSchedule(s: State, kind: Kind): State {
    if !s.cfg.hasStore || (!kind.Maintenance? && !s.cfg.hasGeo) then s
    else
      var gen := Wrap64(s.gen + 1);
      s.(gen := gen,
         cancel := Some(|s.workers|),
         workers := CancelAt(s.workers, s.cancel) + [Worker(kind, gen, GateFirst, false, 0, 0)],
         wg := s.wg + 1)
  }

  predicate Skips(s: State, w: Worker, flag: bool) {
    w.kind.Maintenance? && s.cfg.hasGate && flag
  }

  function FirstBodyPc(kind: Kind): Pc {
    match kind
    case Maintenance => BodyEdges
    case ReloadAndEnrich => BodyReload
    case Enrich => BodyEnrich
  }

  /** Where a worker's control goes next. */
  function NextPc(s: State, w: Worker, flag: bool, ranges: bool): Pc {
    match w.pc
    case GateFirst => if Skips(s, w, flag) then WgDone else AcquireSlot
    case AcquireSlot => if flag then LockWork else WgDone
    case LockWork => CheckCtx
    case CheckCtx => if w.cancelled then UnlockWork else CheckGen
    case CheckGen => if w.gen == s.gen then GateAgain else UnlockWork
    case GateAgain => if Skips(s, w, flag) then UnlockWork else FirstBodyPc(w.kind)
    case BodyEdges => if flag || w.cancelled then UnlockWork else BodyGeoEdges
    case BodyGeoEdges => if flag || !s.cfg.hasGeo || !ranges then UnlockWork else BodyEnrich
    case BodyReload => if w.cancelled then UnlockWork else BodyEnrich
    case BodyEnrich => UnlockWork
    case UnlockWork => ReleaseSlot
    case ReleaseSlot => WgDone
    case WgDone => Ended
    case Ended => Ended
  }

  predicate SlotFree(s: State) {
    s.cfg.cap.None? || s.slots < s.cfg.cap.value
  }

  predicate StepEnabled(s: State, i: nat, flag: bool) {
    i < |s.workers| &&
    var w := s.workers[i];
    match w.pc
    case AcquireSlot => if flag then SlotFree(s) else s.cfg.cap.Some? && w.cancelled
    case LockWork => s.workMu.None?
    case Ended => false
    case _ => true
  }

  function StepWorker(s: State, w: Worker, flag: bool, ranges: bool): Worker {
    w.(pc := NextPc(s, w, flag, ranges),
       taken := if w.pc.AcquireSlot? && flag then w.taken + 1 else w.taken,
       released := if w.pc.ReleaseSlot? then w.released + 1 else w.released)
  }

  function StepSlots(s: State, pc: Pc, flag: bool): nat {
    if s.cfg.cap.None? then s.slots
    else if pc.AcquireSlot? && flag then s.slots + 1
    else if pc.ReleaseSlot? && s.slots > 0 then s.slots - 1
    else s.slots
  }

  function DoStep(s: State, i: nat, flag: bool, ranges: bool): State
    requires i < |s.workers|
  {
    var w := s.workers[i];
    var w' := StepWorker(s, w, flag, ranges);
    s.(workers := s.workers[i := w'],
       slots := StepSlots(s, w.pc, flag),
       workMu := if w.pc.LockWork? then Some(i) else if w.pc.UnlockWork? then None else s.workMu,
       started := if w.pc.GateAgain? && InBody(w'.pc) then s.started + [i] else s.started,
       wg := if w.pc.WgDone? && s.wg > 0 then s.wg - 1 else s.wg)
  }

  predicate Enabled(s: State, e: Event) {
    match e
    case Schedule(_) => true
    case Deadline(i) => i < |s.workers| && !s.workers[i].cancelled
    case ShutdownCancel => true
    case OtherAcquire => s.cfg.cap.Some? && SlotFree(s)
    case OtherRelease => s.others > 0
    case Step(i, flag, _) => StepEnabled(s, i, flag)
  }

  function Next(s: State, e: Event): State
    requires Enabled(s, e)
  {
    match e
    case Schedule(kind) => DoSchedule(s, kind)
    case Deadline(i) => s.(workers := CancelAt(s.workers, Some(i)))
    case ShutdownCancel => s.(workers := CancelAt(s.workers, s.cancel))
    case OtherAcquire => s.(slots := s.slots + 1, others := s.others + 1)
    case OtherRelease => s.(slots := if s.slots > 0 then s.slots - 1 else 0, others := s.others - 1)
    case Step(i, flag, ranges) => DoStep(s, i, flag, ranges)
  }

  /** A run: every event is enabled where it happens. */
  predicate Runs(s: State, es: seq<Event>)
    decreases |es|
  {
    es == [] || (Enabled(s, es[0]) && Runs(Next(s, es[0]), es[1..]))
  }

  function Final(s: State, es: seq<Event>): State
    requires Runs(s, es)
    decreases |es|
  {
    if es == [] then s else Final(Next(s, es[0]), es[1..])
  }

  // ---- sums over the workers ----

  function Sum(ws: seq<Worker>, f: Worker -> nat): nat {
    if ws == [] then 0 else f(ws[0]) + Sum(ws[1..], f)
  }

  function SlotBit(w: Worker): nat { if HoldsSlot(w.pc) then 1 else 0 }

  function LiveBit(w: Worker): nat { if w.pc.Ended? then 0 else 1 }

  /** How many steps a worker can still make, one for its cancellation included. */
  function Rank(w: Worker): nat {
    (match w.pc
     case GateFirst => 12
     case AcquireSlot => 11
     case LockWork => 10
     case CheckCtx => 9
     case CheckGen => 8
     case GateAgain => 7
     case BodyEdges => 6
     case BodyGeoEdges => 5
     case BodyReload => 5
     case BodyEnrich => 4
     case UnlockWork => 3
     case ReleaseSlot => 2
     case WgDone => 1
     case Ended => 0) + (if w.cancelled then 0 else 1)
  }

  lemma {:induction false} SumUpdate(ws: seq<Worker>, f: Worker -> nat, i: nat, w: Worker)
    requires i < |ws|
    ensures Sum(ws[i := w], f) + f(ws[i]) == Sum(ws, f) + f(w)
  {
    if i == 0 {
      assert ws[0 := w][1..] == ws[1..];
    } else {
      assert ws[i := w][1..] == ws[1..][i - 1 := w];
      SumUpdate(ws[1..], f, i - 1, w);
    }
  }

  lemma {:induction false} SumAppend(ws: seq<Worker>, f: Worker -> nat, w: Worker)
    ensures Sum(ws + [w], f) == Sum(ws, f) + f(w)
  {
    if ws == [] {
      assert [] + [w] == [w] && [w][1..] == [];
    } else {
      assert (ws + [w])[1..] == ws[1..] + [w];
      SumAppend(ws[1..], f, w);
    }
  }

  lemma {:induction false} SumAtLeast(ws: seq<Worker>, f: Worker -> nat, i: nat)
    requires i < |ws|
    ensures f(ws[i]) <= Sum(ws, f)
  {
    if i > 0 {
      SumAtLeast(ws[1..], f, i - 1);
    }
  }

  lemma {:induction false} SumZero(ws: seq<Worker>, f: Worker -> nat)
    requires forall i :: 0 <= i < |ws| ==> f(ws[i]) == 0
    ensures Sum(ws, f) == 0
  {
    if ws != [] {
      assert forall i :: 0 <= i < |ws[1..]| ==> ws[1..][i] == ws[i + 1];
      SumZero(ws[1..], f);
    }
  }

  // ---- the invariant ----

  /** What one worker's counters say at its program point. */
  predicate WorkerOk(w: Worker) {
    w.taken <= 1 &&
    (BeforeSlot(w.pc) ==> w.taken == 0) &&
    (HoldsSlot(w.pc) ==> w.taken == 1) &&
    w.released == (if HoldsSlot(w.pc) then 0 else w.taken)
  }

  ghost predicate SlotInv(s: State) {
    (s.cfg.cap.Some? ==> 1 <= s.cfg.cap.value && s.slots <= s.cfg.cap.value) &&
    s.slots == s.others + (if s.cfg.cap.Some? then Sum(s.workers, SlotBit) else 0)
  }

  ghost predicate GenInv(s: State) {
    s.gen == |s.workers| % TWO64 &&
    forall i :: 0 <= i < |s.workers| ==> s.workers[i].gen == (i + 1) % TWO64
  }

  ghost predicate CancelInv(s: State) {
    s.cancel == (if s.workers == [] then None else Some(|s.workers| - 1)) &&
    forall i :: 0 <= i < |s.workers| - 1 ==> s.workers[i].cancelled
  }

  ghost predicate WorkInv(s: State) {
    (forall i :: 0 <= i < |s.workers| ==> WorkerOk(s.workers[i])) &&
    (s.workMu.Some? ==> s.workMu.value < |s.workers|) &&
    (forall i :: 0 <= i < |s.workers| ==> (HoldsWork(s.workers[i].pc) <==> s.workMu == Some(i)))
  }

  ghost predicate Inv(s: State) {
    SlotInv(s) && GenInv(s) && CancelInv(s) && WorkInv(s) && s.wg == Sum(s.workers, LiveBit)
  }

  /** The invariant about the order of jobs; it needs generations that never repeat. */
  ghost predicate OrderInv(s: State) {
    && (forall a, b :: 0 <= a < b < |s.started| ==> s.started[a] < s.started[b])
    && (forall a :: 0 <= a < |s.started| ==> s.started[a] < |s.workers| && Past(s.workers[s.started[a]].pc))
    && (forall i, a :: 0 <= i < |s.workers| && 0 <= a < |s.started| && s.workers[i].pc.GateAgain? ==> s.started[a] < i)
  }

  /** The worker is at, or has left, its job body. */
  predicate Past(pc: Pc) {
    InBody(pc) || pc.UnlockWork? || pc.ReleaseSlot? || pc.WgDone? || pc.Ended?
  }

  lemma InitInv(cfg: Config)
    requires cfg.cap.Some? ==> 1 <= cfg.cap.value
    ensures Inv(Init(cfg)) && OrderInv(Init(cfg))
  {
  }

  lemma CancelKeepsSums(ws: seq<Worker>, c: nat)
    requires c < |ws|
    ensures Sum(CancelAt(ws, Some(c)), SlotBit) == Sum(ws, SlotBit)
    ensures Sum(CancelAt(ws, Some(c)), LiveBit) == Sum(ws, LiveBit)
    ensures Sum(CancelAt(ws, Some(c)), Rank) + (if ws[c].cancelled then 0 else 1) == Sum(ws, Rank)
  {
    var w := ws[c].(cancelled := true);
    SumUpdate(ws, SlotBit, c, w);
    SumUpdate(ws, LiveBit, c, w);
    SumUpdate(ws, Rank, c, w);
  }

  lemma ScheduleKeepsSums(s: State, kind: Kind)
    requires Inv(s)
    ensures var s' := DoSchedule(s, kind); SlotInv(s') && s'.wg == Sum(s'.workers, LiveBit)
    ensures Measure(DoSchedule(s, kind)) <= Measure(s) + 13
  {
    var s' := DoSchedule(s, kind);
    if s' != s {
      var ws := CancelAt(s.workers, s.cancel);
      if s.workers != [] {
        CancelKeepsSums(s.workers, |s.workers| - 1);
      }
      var w := Worker(kind, s'.gen, GateFirst, false, 0, 0);
      SumAppend(ws, SlotBit, w);
      SumAppend(ws, LiveBit, w);
      SumAppend(ws, Rank, w);
    }
  }

  lemma ScheduleKeepsGen(s: State, kind: Kind)
    requires GenInv(s)
    ensures GenInv(DoSchedule(s, kind))
  {
    assert (|s.workers| % TWO64 + 1) % TWO64 == (|s.workers| + 1) % TWO64;
  }

  lemma ScheduleKeepsWork(s: State, kind: Kind)
    requires CancelInv(s) && WorkInv(s)
    ensures CancelInv(DoSchedule(s, kind)) && WorkInv(DoSchedule(s, kind))
  {
  }

  lemma StepKeepsSlots(s: State, i: nat, flag: bool, ranges: bool)
    requires SlotInv(s) && WorkInv(s) && StepEnabled(s, i, flag)
    ensures SlotInv(DoStep(s, i, flag, ranges))
  {
    var s' := DoStep(s, i, flag, ranges);
    var w, w' := s.workers[i], s'.workers[i];
    SumUpdate(s.workers, SlotBit, i, w');
    SumAtLeast(s.workers, SlotBit, i);
  }

  lemma StepKeepsWg(s: State, i: nat, flag: bool, ranges: bool)
    requires s.wg == Sum(s.workers, LiveBit) && StepEnabled(s, i, flag)
    ensures var s' := DoStep(s, i, flag, ranges); s'.wg == Sum(s'.workers, LiveBit)
  {
    SumUpdate(s.workers, LiveBit, i, DoStep(s, i, flag, ranges).workers[i]);
    SumAtLeast(s.workers, LiveBit, i);
  }

  lemma StepKeepsGen(s: State, i: nat, flag: bool, ranges: bool)
    requires GenInv(s) && CancelInv(s) && StepEnabled(s, i, flag)
    ensures GenInv(DoStep(s, i, flag, ranges)) && CancelInv(DoStep(s, i, flag, ranges))
  {
    var s' := DoStep(s, i, flag, ranges);
    assert s'.workers[i].gen == s.workers[i].gen && s'.workers[i].cancelled == s.workers[i].cancelled;
  }

  lemma StepKeepsWork(s: State, i: nat, flag: bool, ranges: bool)
    requires WorkInv(s) && StepEnabled(s, i, flag)
    ensures WorkInv(DoStep(s, i, flag, ranges))
  {
    var s' := DoStep(s, i, flag, ranges);
    var w := s.workers[i];
    assert WorkerOk(w);
    assert WorkerOk(s'.workers[i]);
    assert HoldsWork(w.pc) <==> s.workMu == Some(i);
    assert HoldsWork(s'.workers[i].pc) <==> s'.workMu == Some(i);
    assert s'.workMu != s.workMu ==> s.workMu == Some(i) || s'.workMu == Some(i);
  }

  lemma CancelKeepsInv(s: State, c: nat)
    requires Inv(s) && c < |s.workers|
    ensures Inv(s.(workers := CancelAt(s.workers, Some(c))))
  {
    CancelKeepsSums(s.workers, c);
    CancelKeepsNumbers(s, c);
    CancelKeepsWork(s, c);
    hide GenInv, CancelInv, WorkInv, CancelAt;
  }

  lemma CancelKeepsNumbers(s: State, c: nat)
    requires GenInv(s) && CancelInv(s) && c < |s.workers|
    ensures var t := s.(workers := CancelAt(s.workers, Some(c))); GenInv(t) && CancelInv(t)
  {
  }

  lemma CancelKeepsWork(s: State, c: nat)
    requires WorkInv(s) && c < |s.workers|
    ensures WorkInv(s.(workers := CancelAt(s.workers, Some(c))))
  {
    var t := s.(workers := CancelAt(s.workers, Some(c)));
    forall i | 0 <= i < |t.workers|
      ensures WorkerOk(t.workers[i]) && (HoldsWork(t.workers[i].pc) <==> t.workMu == Some(i))
    {
      assert WorkerOk(s.workers[i]) && (HoldsWork(s.workers[i].pc) <==> s.workMu == Some(i));
      hide HoldsWork;
    }
  }

  /** Every event keeps the invariant. */
  lemma NextKeepsInv(s: State, e: Event)
    requires Inv(s) && Enabled(s, e)
    ensures Inv(Next(s, e))
  {
    match e
    case Schedule(kind) =>
      ScheduleKeepsSums(s, kind);
      ScheduleKeepsGen(s, kind);
      ScheduleKeepsWork(s, kind);
    case Deadline(i) => CancelKeepsInv(s, i);
    case ShutdownCancel =>
      if s.workers != [] {
        CancelKeepsInv(s, |s.workers| - 1);
      }
    case OtherAcquire =>
    case OtherRelease =>
    case Step(i, flag, ranges) =>
      StepKeepsSlots(s, i, flag, ranges);
      StepKeepsWg(s, i, flag, ranges);
      StepKeepsGen(s, i, flag, ranges);
      StepKeepsWork(s, i, flag, ranges);
  }

  lemma {:induction false} RunKeepsInv(s: State, es: seq<Event>)
    requires Inv(s) && Runs(s, es)
    ensures Inv(Final(s, es))
    decreases |es|
  {
    if es != [] {
      NextKeepsInv(s, es[0]);
      RunKeepsInv(Next(s, es[0]), es[1..]);
    }
  }

  // ---- single steps, spelled out ----

  lemma ChecksIgnoreRanges(s: State, i: nat, flag: bool, ranges: bool)
    requires i < |s.workers| && !InBody(s.workers[i].pc)
    ensures DoStep(s, i, flag, ranges) == DoStep(s, i, flag, false)
  {
  }

  lemma AcquireStep(s: State, i: nat, took: bool)
    requires Inv(s) && StepEnabled(s, i, took) && s.workers[i].pc.AcquireSlot?
    ensures Inv(Next(s, Step(i, took, false)))
    ensures var w := s.workers[i];
      Next(s, Step(i, took, false)) == s.(
        workers := s.workers[i := if took then w.(pc := LockWork, taken := w.taken + 1) else w.(pc := WgDone)],
        slots := if took && s.cfg.cap.Some? then s.slots + 1 else s.slots)
  {
    NextKeepsInv(s, Step(i, took, false));
    hide Inv;
  }

  lemma LockStep(s: State, i: nat)
    requires Inv(s) && i < |s.workers| && s.workers[i].pc.LockWork? && s.workMu.None?
    ensures Inv(Next(s, Step(i, true, false)))
    ensures Next(s, Step(i, true, false)) == s.(workers := s.workers[i := s.workers[i].(pc := CheckCtx)], workMu := Some(i))
  {
    NextKeepsInv(s, Step(i, true, false));
    hide Inv;
  }

  lemma UnlockStep(s: State, i: nat)
    requires Inv(s) && i < |s.workers| && s.workers[i].pc.UnlockWork?
    ensures Inv(Next(s, Step(i, true, false)))
    ensures Next(s, Step(i, true, false)) == s.(workers := s.workers[i := s.workers[i].(pc := ReleaseSlot)], workMu := None)
  {
    NextKeepsInv(s, Step(i, true, false));
    hide Inv;
  }

  lemma ReleaseStep(s: State, i: nat)
    requires Inv(s) && i < |s.workers| && s.workers[i].pc.ReleaseSlot?
    ensures Inv(Next(s, Step(i, true, false)))
    ensures var w := s.workers[i];
      Next(s, Step(i, true, false)) == s.(
        workers := s.workers[i := w.(pc := WgDone, released := w.released + 1)],
        slots := if s.cfg.cap.Some? && s.slots > 0 then s.slots - 1 else s.slots)
  {
    NextKeepsInv(s, Step(i, true, false));
    hide Inv;
  }

  lemma DoneStep(s: State, i: nat)
    requires Inv(s) && i < |s.workers| && s.workers[i].pc.WgDone?
    ensures Inv(Next(s, Step(i, true, false))) && s.wg > 0
    ensures Next(s, Step(i, true, false)) == s.(workers := s.workers[i := s.workers[i].(pc := Ended)], wg := s.wg - 1)
  {
    NextKeepsInv(s, Step(i, true, false));
    SumAtLeast(s.workers, LiveBit, i);
    assert s.wg > 0;
    hide Inv;
  }

  // ---- safety over whole runs ----

  /**
   * At most one worker is in a job body, and it holds a slot; no more slots are
   * held than the limiter has, and none is lost or returned twice; whoever is not
   * the newest worker has a cancelled context; once everybody ended, every slot
   * a job took is back.
   */
  lemma Safety(cfg: Config, es: seq<Event>)
    requires cfg.cap.Some? ==> 1 <= cfg.cap.value
    requires Runs(Init(cfg), es)
    ensures var s := Final(Init(cfg), es);
      && (forall i, j :: 0 <= i < j < |s.workers| ==> !(InBody(s.workers[i].pc) && InBody(s.workers[j].pc)))
      && (forall i :: 0 <= i < |s.workers| && InBody(s.workers[i].pc) ==>
            s.workMu == Some(i) && s.workers[i].taken == 1 && s.workers[i].released == 0)
      && (s.cfg.cap.Some? ==> s.slots <= s.cfg.cap.value && s.slots == s.others + Sum(s.workers, SlotBit))
      && (forall i :: 0 <= i < |s.workers| ==> s.workers[i].released <= s.workers[i].taken <= 1)
      && (forall i :: 0 <= i < |s.workers| && s.workers[i].pc.Ended? ==>
            s.workers[i].released == s.workers[i].taken)
      && (forall i :: 0 <= i < |s.workers| - 1 ==> s.workers[i].cancelled)
  {
    InitInv(cfg);
    RunKeepsInv(Init(cfg), es);
  }

  /**
   * The generation test lets a worker through exactly when its number agrees with
   * the newest one modulo 2^64; with fewer than 2^64 schedule calls so far that is
   * the newest worker alone. A worker superseded after it passed this test still
   * starts; see SupersededStarts.
   */
  lemma OnlyNewestPassesGen(s: State, i: nat, flag: bool, ranges: bool)
    requires GenInv(s) && i < |s.workers| && s.workers[i].pc.CheckGen?
    ensures Next(s, Step(i, flag, ranges)).workers[i].pc.GateAgain? <==> (|s.workers| - 1 - i) % TWO64 == 0
    ensures |s.workers| <= TWO64 ==>
      (Next(s, Step(i, flag, ranges)).workers[i].pc.GateAgain? <==> i == |s.workers| - 1)
  {
    SameResidue(|s.workers|, i + 1);
  }

  lemma SameResidue(a: nat, b: nat)
    requires b <= a
    ensures a % TWO64 == b % TWO64 <==> (a - b) % TWO64 == 0
  {
    assert a == TWO64 * (a / TWO64) + a % TWO64;
    assert b == TWO64 * (b / TWO64) + b % TWO64;
    var d := a - b;
    assert d == TWO64 * (d / TWO64) + d % TWO64;
    assert d == TWO64 * (a / TWO64 - b / TWO64) + (a % TWO64 - b % TWO64);
  }

  lemma PcMoves(s: State, w: Worker, flag: bool, ranges: bool)
    ensures Past(w.pc) ==> Past(NextPc(s, w, flag, ranges))
    ensures NextPc(s, w, flag, ranges).GateAgain? ==> w.pc.CheckGen?
    ensures w.pc.GateAgain? ==> Past(NextPc(s, w, flag, ranges))
  {
  }

  lemma StepKeepsOrder(s: State, i: nat, flag: bool, ranges: bool)
    requires WorkInv(s) && GenInv(s) && OrderInv(s) && StepEnabled(s, i, flag) && |s.workers| <= TWO64
    ensures OrderInv(DoStep(s, i, flag, ranges))
  {
    PcMoves(s, s.workers[i], flag, ranges);
    if s.workers[i].pc.CheckGen? {
      OnlyNewestPassesGen(s, i, flag, ranges);
      hide WorkInv, GenInv;
      CheckKeepsOrder(s, i, flag, ranges);
    } else if s.workers[i].pc.GateAgain? {
      GateKeepsOrder(s, i, flag, ranges);
    } else {
      MoveKeepsOrder(s, i, flag, ranges);
    }
  }

  /** At the generation test: only the newest worker comes to its gate. */
  lemma CheckKeepsOrder(s: State, i: nat, flag: bool, ranges: bool)
    requires OrderInv(s) && StepEnabled(s, i, flag) && s.workers[i].pc.CheckGen?
    requires NextPc(s, s.workers[i], flag, ranges).GateAgain? ==> i == |s.workers| - 1
    ensures OrderInv(DoStep(s, i, flag, ranges))
  {
    var t := DoStep(s, i, flag, ranges);
    assert t.started == s.started && t.workers[i].pc == NextPc(s, s.workers[i], flag, ranges);
    hide NextPc, Past;
    assert forall a :: 0 <= a < |s.started| ==> s.started[a] != i by { NotStarted(s, i); }
    assert forall j :: 0 <= j < |s.workers| && j != i ==> t.workers[j] == s.workers[j];
  }

  lemma NotStarted(s: State, i: nat)
    requires OrderInv(s) && i < |s.workers| && s.workers[i].pc.CheckGen?
    ensures forall a :: 0 <= a < |s.started| ==> s.started[a] != i
  {
    assert !Past(s.workers[i].pc);
  }

  /** At the gate: the worker is the only one there, and newer than all that started. */
  lemma GateKeepsOrder(s: State, i: nat, flag: bool, ranges: bool)
    requires WorkInv(s) && OrderInv(s) && StepEnabled(s, i, flag) && s.workers[i].pc.GateAgain?
    ensures OrderInv(DoStep(s, i, flag, ranges))
  {
    var t := DoStep(s, i, flag, ranges);
    PcMoves(s, s.workers[i], flag, ranges);
    AloneAtGate(s, i);
    assert t.workers[i].pc == NextPc(s, s.workers[i], flag, ranges);
    hide NextPc, Past, WorkInv;
    assert forall j :: 0 <= j < |s.workers| && j != i ==> t.workers[j] == s.workers[j];
    assert t.started == s.started || t.started == s.started + [i];
  }

  lemma AloneAtGate(s: State, i: nat)
    requires WorkInv(s) && i < |s.workers| && s.workers[i].pc.GateAgain?
    ensures forall j :: 0 <= j < |s.workers| && s.workers[j].pc.GateAgain? ==> j == i
  {
    assert HoldsWork(s.workers[i].pc);
    forall j | 0 <= j < |s.workers| && s.workers[j].pc.GateAgain?
      ensures j == i
    {
      assert HoldsWork(s.workers[j].pc);
    }
  }

  /** Elsewhere nothing starts, and nobody comes to a gate. */
  lemma MoveKeepsOrder(s: State, i: nat, flag: bool, ranges: bool)
    requires OrderInv(s) && StepEnabled(s, i, flag) && !s.workers[i].pc.GateAgain? && !s.workers[i].pc.CheckGen?
    ensures OrderInv(DoStep(s, i, flag, ranges))
  {
    var t := DoStep(s, i, flag, ranges);
    PcMoves(s, s.workers[i], flag, ranges);
    assert t.started == s.started && t.workers[i].pc == NextPc(s, s.workers[i], flag, ranges);
    hide NextPc, Past;
    assert forall j :: 0 <= j < |s.workers| && j != i ==> t.workers[j] == s.workers[j];
  }

  lemma NextKeepsOrder(s: State, e: Event)
    requires Inv(s) && OrderInv(s) && Enabled(s, e) && |s.workers| <= TWO64
    ensures OrderInv(Next(s, e))
  {
    if e.Step? {
      StepKeepsOrder(s, e.i, e.flag, e.ranges);
    } else {
      assert Quieter(s, Next(s, e));
      hide Next;
      QuietKeepsOrder(s, Next(s, e));
    }
  }

  /** No worker moved, and new ones are at the start. */
  predicate Quieter(s: State, t: State) {
    t.started == s.started && |s.workers| <= |t.workers| &&
    (forall i :: 0 <= i < |s.workers| ==> t.workers[i].pc == s.workers[i].pc) &&
    forall i :: |s.workers| <= i < |t.workers| ==> t.workers[i].pc.GateFirst?
  }

  lemma QuietKeepsOrder(s: State, t: State)
    requires OrderInv(s) && Quieter(s, t)
    ensures OrderInv(t)
  {
    hide Past;
  }

  lemma {:induction false} NeverFewerWorkers(s: State, es: seq<Event>)
    requires Runs(s, es)
    ensures |s.workers| <= |Final(s, es).workers|
    decreases |es|
  {
    if es != [] {
      NeverFewerWorkers(Next(s, es[0]), es[1..]);
    }
  }

  lemma {:induction false} RunKeepsOrder(s: State, es: seq<Event>)
    requires Inv(s) && OrderInv(s) && Runs(s, es) && |Final(s, es).workers| <= TWO64
    ensures OrderInv(Final(s, es))
    decreases |es|
  {
    if es != [] {
      NeverFewerWorkers(s, es);
      NextKeepsInv(s, es[0]);
      NextKeepsOrder(s, es[0]);
      RunKeepsOrder(Next(s, es[0]), es[1..]);
    }
  }

  /** Jobs begin in the order in which they were scheduled, each at most once. */
  lemma JobsStartInScheduleOrder(cfg: Config, es: seq<Event>)
    requires cfg.cap.Some? ==> 1 <= cfg.cap.value
    requires Runs(Init(cfg), es) && |Final(Init(cfg), es).workers| <= TWO64
    ensures var st := Final(Init(cfg), es).started; forall a, b :: 0 <= a < b < |st| ==> st[a] < st[b]
  {
    InitInv(cfg);
    RunKeepsOrder(Init(cfg), es);
  }

  // ---- progress ----

  /** Steps the system takes by itself: workers, and other tasks giving slots back. */
  predicate Progress(e: Event) {
    e.Step? || e.OtherRelease?
  }

  /** While some worker is unfinished, some step that makes progress is enabled. */
  lemma NoDeadlock(s: State, i: nat) returns (e: Event)
    requires Inv(s) && i < |s.workers| && !s.workers[i].pc.Ended?
    ensures Progress(e) && Enabled(s, e)
  {
    if StepEnabled(s, i, true) {
      e := Step(i, true, true);
    } else if s.workMu.Some? {
      e := Step(s.workMu.value, true, true);
    } else if s.others > 0 {
      e := OtherRelease;
    } else {
      // Every slot is held by a worker; with workMu free, that worker can move.
      var j := SomeSlotHolder(s.workers);
      e := Step(j, true, true);
    }
  }

  lemma {:induction false} SomeSlotHolder(ws: seq<Worker>) returns (j: nat)
    requires Sum(ws, SlotBit) > 0
    ensures j < |ws| && HoldsSlot(ws[j].pc)
  {
    if HoldsSlot(ws[0].pc) {
      j := 0;
    } else {
      var k := SomeSlotHolder(ws[1..]);
      j := k + 1;
    }
  }

  function Measure(s: State): nat {
    Sum(s.workers, Rank) + s.others
  }

  /** What an event from outside can add to the measure, itself included. */
  function Cost(e: Event): nat {
    match e
    case Schedule(_) => 14
    case OtherAcquire => 2
    case ShutdownCancel => 1
    case _ => 0
  }

  function TotalCost(es: seq<Event>): nat {
    if es == [] then 0 else Cost(es[0]) + TotalCost(es[1..])
  }

  lemma StepLowersMeasure(s: State, i: nat, flag: bool, ranges: bool)
    requires StepEnabled(s, i, flag)
    ensures Measure(DoStep(s, i, flag, ranges)) < Measure(s)
  {
    var s' := DoStep(s, i, flag, ranges);
    SumUpdate(s.workers, Rank, i, s'.workers[i]);
    RankFalls(s, s.workers[i], flag, ranges);
    hide Rank, StepWorker, StepEnabled;
  }

  lemma RankFalls(s: State, w: Worker, flag: bool, ranges: bool)
    requires !w.pc.Ended?
    ensures Rank(StepWorker(s, w, flag, ranges)) < Rank(w)
  {
  }

  lemma NextMeasure(s: State, e: Event)
    requires Inv(s) && Enabled(s, e)
    ensures Measure(Next(s, e)) + 1 <= Measure(s) + Cost(e)
  {
    match e
    case Schedule(kind) => ScheduleKeepsSums(s, kind);
    case Deadline(i) => CancelKeepsSums(s.workers, i);
    case ShutdownCancel =>
      if s.workers != [] {
        CancelKeepsSums(s.workers, |s.workers| - 1);
      }
    case OtherAcquire =>
    case OtherRelease =>
    case Step(i, flag, ranges) => StepLowersMeasure(s, i, flag, ranges);
  }

  /**
   * Termination: the length of any run is bounded by its starting measure and by
   * how often the outside schedules, takes slots or shuts down. Without such
   * events every event lowers the measure.
   */
  lemma {:induction false} RunsAreBounded(s: State, es: seq<Event>)
    requires Inv(s) && Runs(s, es)
    ensures |es| + Measure(Final(s, es)) <= Measure(s) + TotalCost(es)
    decreases |es|
  {
    if es != [] {
      NextKeepsInv(s, es[0]);
      NextMeasure(s, es[0]);
      RunsAreBounded(Next(s, es[0]), es[1..]);
    }
  }

  /** When no progress step is left, all workers ended and nothing is held. */
  lemma QuietMeansFinished(s: State)
    requires Inv(s)
    requires forall e :: Progress(e) ==> !Enabled(s, e)
    ensures forall i :: 0 <= i < |s.workers| ==> s.workers[i].pc.Ended?
    ensures s.wg == 0 && s.workMu.None? && s.slots == 0
  {
    forall i | 0 <= i < |s.workers|
      ensures s.workers[i].pc.Ended?
    {
      if !s.workers[i].pc.Ended? {
        var e := NoDeadlock(s, i);
        assert false;
      }
    }
    assert s.workMu.None?;
    assert !Enabled(s, OtherRelease);
    SumZero(s.workers, SlotBit);
    SumZero(s.workers, LiveBit);
  }

  /**
   * What the wait in Shutdown observes: the wait group is at zero exactly when
   * every worker ended, and then no job holds a lock or a slot.
   */
  lemma WaitGroupZero(s: State)
    requires Inv(s)
    ensures s.wg == 0 <==> forall i :: 0 <= i < |s.workers| ==> s.workers[i].pc.Ended?
    ensures s.wg == 0 ==> s.workMu.None? && s.slots == s.others
  {
    if s.wg == 0 {
      forall i | 0 <= i < |s.workers|
        ensures s.workers[i].pc.Ended?
      {
        SumAtLeast(s.workers, LiveBit, i);
      }
      SumZero(s.workers, SlotBit);
    } else if forall i :: 0 <= i < |s.workers| ==> s.workers[i].pc.Ended? {
      SumZero(s.workers, LiveBit);
    }
  }

  // ---- what still starts after a cancellation ----

  /** Past the context check, this worker is let through to its job body if nothing changes. */
  predicate Able(s: State, i: nat) {
    i < |s.workers| && (s.workers[i].pc.GateAgain? || (s.workers[i].pc.CheckGen? && s.workers[i].gen == s.gen))
  }

  /** The worker whose job body begins with this event. */
  function Begins(s: State, e: Event): seq<nat>
    requires Enabled(s, e)
  {
    if e.Step? && s.workers[e.i].pc.GateAgain? && !Skips(s, s.workers[e.i], e.flag) then [e.i] else []
  }

  /** The workers whose job bodies begin along a run, in order. */
  function Begun(s: State, es: seq<Event>): seq<nat>
    requires Runs(s, es)
    decreases |es|
  {
    if es == [] then [] else Begins(s, es[0]) + Begun(Next(s, es[0]), es[1..])
  }

  function Older(n: nat): nat -> bool {
    (i: nat) => i < n
  }

  predicate NoSchedule(es: seq<Event>) {
    forall k :: 0 <= k < |es| ==> !es[k].Schedule?
  }

  /** The contexts of the first n workers are cancelled. */
  predicate CancelledUpTo(s: State, n: nat) {
    n <= |s.workers| && forall i :: 0 <= i < n ==> s.workers[i].cancelled
  }

  /** Started lists what began before and what begins along the run. */
  lemma {:induction false} StartedIsBegun(s: State, es: seq<Event>)
    requires Runs(s, es)
    ensures Final(s, es).started == s.started + Begun(s, es)
    decreases |es|
  {
    if es != [] {
      assert Next(s, es[0]).started == s.started + Begins(s, es[0]);
      StartedIsBegun(Next(s, es[0]), es[1..]);
    }
  }

  lemma NextKeepsCancelled(s: State, e: Event, n: nat)
    requires Enabled(s, e) && CancelledUpTo(s, n)
    ensures CancelledUpTo(Next(s, e), n)
  {
  }

  /** Generations of scheduled workers differ from the next one while there are fewer than 2^64. */
  lemma NewGeneration(s: State, i: nat)
    requires GenInv(s) && i < |s.workers| < TWO64
    ensures s.workers[i].gen != Wrap64(s.gen + 1)
  {
    assert i + 1 < TWO64 && s.workers[i].gen == i + 1;
    if |s.workers| + 1 < TWO64 {
      assert Wrap64(s.gen + 1) == |s.workers| + 1;
    } else {
      assert Wrap64(s.gen + 1) == 0;
    }
  }

  /** No event makes a cancelled worker able to start, unless the generations begin to repeat. */
  lemma NobodyBecomesAble(s: State, e: Event, n: nat, h: nat)
    requires Inv(s) && Enabled(s, e) && CancelledUpTo(s, n) && h < n && Able(Next(s, e), h)
    requires e.Schedule? ==> |Next(s, e).workers| <= TWO64
    ensures Able(s, h)
  {
    hide SlotInv, CancelInv, WorkInv, Wrap64;
    assert s.workers[h].cancelled;
    if e.Schedule? && Next(s, e) != s {
      NewGeneration(s, h);
    }
  }

  /** Once a job body began, no other worker is able to start. */
  lemma OnlyOneAble(s: State, e: Event, h: nat)
    requires Inv(s) && Enabled(s, e) && Begins(s, e) != []
    ensures !Able(Next(s, e), h)
  {
    hide SlotInv, GenInv, CancelInv;
    assert HoldsWork(s.workers[e.i].pc);
    assert s.workMu == Some(e.i);
  }

  /** Of the first n workers at most one begins its job, and only one that was able to start. */
  ghost predicate OneAtMost(s: State, n: nat, begun: seq<nat>) {
    Keep(Older(n), begun) == [] || exists h: nat :: h < n && Able(s, h) && Keep(Older(n), begun) == [h]
  }

  lemma OneMoreEvent(s: State, e: Event, n: nat, later: seq<nat>)
    requires Inv(s) && Enabled(s, e) && CancelledUpTo(s, n)
    requires e.Schedule? ==> |Next(s, e).workers| <= TWO64
    requires OneAtMost(Next(s, e), n, later)
    ensures OneAtMost(s, n, Begins(s, e) + later)
  {
    hide Inv, Able, CancelledUpTo, Next, Begins, Enabled;
    KeepAppend(Older(n), Begins(s, e), later);
    BeginsAbleOne(s, e, n);
    if Keep(Older(n), later) != [] {
      var h: nat :| h < n && Able(Next(s, e), h) && Keep(Older(n), later) == [h];
      if Begins(s, e) != [] {
        OnlyOneAble(s, e, h);
        assert false;
      }
      NobodyBecomesAble(s, e, n, h);
    }
  }

  /**
   * Of the workers whose contexts are cancelled at most one still begins its job
   * along a run, and only one that is past the context check and able to start.
   */
  lemma {:induction false} CancelledStart(s: State, es: seq<Event>, n: nat)
    requires Inv(s) && Runs(s, es) && CancelledUpTo(s, n)
    requires NoSchedule(es) || |Final(s, es).workers| <= TWO64
    ensures OneAtMost(s, n, Begun(s, es))
    decreases |es|
  {
    hide Inv, Able, CancelledUpTo, Next, Begins, Enabled;
    if es != [] {
      hide OneAtMost;
      var e, t := es[0], Next(s, es[0]);
      NextKeepsInv(s, e);
      NextKeepsCancelled(s, e, n);
      NeverFewerWorkers(t, es[1..]);
      CancelledStart(t, es[1..], n);
      OneMoreEvent(s, e, n, Begun(t, es[1..]));
    }
  }

  lemma BeginsAbleOne(s: State, e: Event, n: nat)
    requires Enabled(s, e)
    ensures OneAtMost(s, n, Begins(s, e))
    ensures Begins(s, e) == [] ==> Keep(Older(n), Begins(s, e)) == []
  {
    var b := Begins(s, e);
    if b != [] {
      assert Able(s, e.i) && b[1..] == [];
    }
  }

  lemma {:induction false} BegunAreWorkers(s: State, es: seq<Event>)
    requires Runs(s, es) && NoSchedule(es)
    ensures Keep(Older(|s.workers|), Begun(s, es)) == Begun(s, es)
    decreases |es|
  {
    if es != [] {
      var t, n := Next(s, es[0]), |s.workers|;
      BegunAreWorkers(t, es[1..]);
      assert |t.workers| == n;
      var b := Begins(s, es[0]);
      assert b != [] ==> b[1..] == [] && Older(n)(b[0]);
      KeepAppend(Older(n), b, Begun(t, es[1..]));
    }
  }

  lemma ShutdownState(s: State)
    requires Inv(s)
    ensures var t := Next(s, ShutdownCancel);
      Inv(t) && |t.workers| == |s.workers| && CancelledUpTo(t, |s.workers|) && t.started == s.started &&
      forall h :: Able(t, h) <==> Able(s, h)
  {
    NextKeepsInv(s, ShutdownCancel);
  }

  /**
   * After Shutdown's cancel every context is cancelled, and, nothing more being
   * scheduled, at most one job body begins: that of a worker already past the context
   * check and able to start.
   */
  lemma ShutdownLetsOneStart(s: State, es: seq<Event>)
    requires Inv(s) && Runs(Next(s, ShutdownCancel), es) && NoSchedule(es)
    ensures CancelledUpTo(Next(s, ShutdownCancel), |s.workers|)
    ensures var last := Final(Next(s, ShutdownCancel), es);
      last.started == s.started || exists h :: Able(s, h) && last.started == s.started + [h]
  {
    hide Inv, Able, Next, CancelledUpTo;
    var t := Next(s, ShutdownCancel);
    ShutdownState(s);
    CancelledStart(t, es, |s.workers|);
    BegunAreWorkers(t, es);
    StartedIsBegun(t, es);
  }

  lemma GateStarts(s: State, h: nat)
    requires h < |s.workers| && s.workers[h].pc.GateAgain?
    ensures Runs(s, [Step(h, false, true)]) && Begun(s, [Step(h, false, true)]) == [h]
  {
    var es := [Step(h, false, true)];
    assert es[1..] == [];
  }

  /** A worker that is able to start does start, with the gate open: from the gate at once, from the generation test in two steps. */
  lemma AbleStarts(s: State, h: nat) returns (es: seq<Event>)
    requires Able(s, h)
    ensures Runs(s, es) && NoSchedule(es) && Begun(s, es) == [h]
  {
    var e := Step(h, false, true);
    if s.workers[h].pc.GateAgain? {
      es := [e];
      GateStarts(s, h);
    } else {
      es := [e, e];
      var t := Next(s, e);
      assert t.workers[h].pc.GateAgain?;
      GateStarts(t, h);
      assert es[1..] == [e] && Begins(s, e) == [];
    }
  }

  /** After Shutdown's cancel some job body can still begin exactly when some worker is able to start. */
  lemma ShutdownExactly(s: State)
    requires Inv(s)
    ensures var t := Next(s, ShutdownCancel);
      (exists es :: Runs(t, es) && NoSchedule(es) && Begun(t, es) != []) <==> exists h :: Able(s, h)
  {
    hide Inv, Able, Next, CancelledUpTo, Begun, Final, Runs, NoSchedule;
    var t := Next(s, ShutdownCancel);
    ShutdownState(s);
    if exists h :: Able(s, h) {
      var h :| Able(s, h);
      var es := AbleStarts(t, h);
    }
    if exists es :: Runs(t, es) && NoSchedule(es) && Begun(t, es) != [] {
      var es :| Runs(t, es) && NoSchedule(es) && Begun(t, es) != [];
      StartedIsBegun(t, es);
      ShutdownLetsOneStart(s, es);
    }
  }

  lemma ScheduledState(s: State, kind: Kind)
    requires Inv(s) && Next(s, Schedule(kind)) != s
    ensures var t := Next(s, Schedule(kind));
      Inv(t) && |t.workers| == |s.workers| + 1 && CancelledUpTo(t, |s.workers|) && t.started == s.started &&
      (|t.workers| <= TWO64 ==> forall h: nat :: h < |s.workers| ==> (Able(t, h) <==> s.workers[h].pc.GateAgain?))
  {
    hide Wrap64;
    NextKeepsInv(s, Schedule(kind));
    var t := Next(s, Schedule(kind));
    if |t.workers| <= TWO64 {
      forall h: nat | h < |s.workers|
        ensures Able(t, h) <==> s.workers[h].pc.GateAgain?
      {
        NewGeneration(s, h);
      }
    }
  }

  /**
   * After a superseding schedule at most one of the older jobs still begins, whatever
   * is scheduled later: that of a worker past the generation test, in front of its gate.
   */
  lemma SupersededStarts(s: State, kind: Kind, es: seq<Event>)
    requires Inv(s) && Next(s, Schedule(kind)) != s && Runs(Next(s, Schedule(kind)), es)
    requires |Final(Next(s, Schedule(kind)), es).workers| <= TWO64
    ensures var old' := Keep(Older(|s.workers|), Begun(Next(s, Schedule(kind)), es));
      old' == [] || exists h: nat :: h < |s.workers| && s.workers[h].pc.GateAgain? && old' == [h]
  {
    hide Inv, Able, Next, CancelledUpTo, Begun, Runs, Final;
    var t := Next(s, Schedule(kind));
    ScheduledState(s, kind);
    NeverFewerWorkers(t, es);
    CancelledStart(t, es, |s.workers|);
  }

  /** Some older job can still begin after a superseding schedule exactly when some worker stands in front of its gate. */
  lemma SupersededExactly(s: State, kind: Kind)
    requires Inv(s) && Next(s, Schedule(kind)) != s && |s.workers| < TWO64
    ensures var t, older := Next(s, Schedule(kind)), Older(|s.workers|);
      (exists es :: Runs(t, es) && NoSchedule(es) && Keep(older, Begun(t, es)) != []) <==>
      exists h: nat :: h < |s.workers| && s.workers[h].pc.GateAgain?
  {
    hide Inv, Able, Next, CancelledUpTo, Begun, Runs, Final, NoSchedule;
    var t, n := Next(s, Schedule(kind)), |s.workers|;
    ScheduledState(s, kind);
    if exists h: nat :: h < n && s.workers[h].pc.GateAgain? {
      var h: nat :| h < n && s.workers[h].pc.GateAgain?;
      var es := AbleStarts(t, h);
      assert [h][1..] == [] && Older(n)(h);
      assert Keep(Older(n), [h]) != [];
    }
    if exists es :: Runs(t, es) && NoSchedule(es) && Keep(Older(n), Begun(t, es)) != [] {
      var es :| Runs(t, es) && NoSchedule(es) && Keep(Older(n), Begun(t, es)) != [];
      CancelledStart(t, es, n);
    }
  }

  // ---- runs in which that happens ----

  lemma {:induction false} RunMore(s: State, es: seq<Event>, e: Event)
    requires Runs(s, es) && Enabled(Final(s, es), e)
    ensures Runs(s, es + [e]) && Final(s, es + [e]) == Next(Final(s, es), e)
    decreases |es|
  {
    hide Next, Enabled;
    if es == [] {
      assert es + [e] == [e] && [e][1..] == [];
      assert Runs(Next(s, e), []) && Final(Next(s, e), []) == Next(s, e);
    } else {
      assert (es + [e])[0] == es[0] && (es + [e])[1..] == es[1..] + [e];
      RunMore(Next(s, es[0]), es[1..], e);
    }
  }

  /** One worker, which took every step so far but the last ones. */
  predicate OneWorker(s: State, pc: Pc) {
    |s.workers| == 1 && s.workers[0].pc == pc && s.workers[0].kind.Enrich? && !s.workers[0].cancelled &&
    s.workers[0].gen == s.gen && s.started == [] && s.workMu == (if HoldsWork(pc) then Some(0) else None) &&
    (s.cfg.cap.Some? ==> s.slots < s.cfg.cap.value || HoldsSlot(pc))
  }

  lemma OneStep(s: State, pc: Pc)
    requires OneWorker(s, pc) && (pc.GateFirst? || pc.AcquireSlot? || pc.LockWork? || pc.CheckCtx? || pc.CheckGen?)
    ensures Enabled(s, Step(0, true, true))
    ensures var t := Next(s, Step(0, true, true)); OneWorker(t, NextPc(s, s.workers[0], true, true)) && t.cfg == s.cfg
  {
  }

  /** From the start, one job comes to its generation test, and then to its gate. */
  lemma JobComesToGate(cfg: Config) returns (toTest: seq<Event>, toGate: seq<Event>)
    requires cfg.hasStore && cfg.hasGeo && (cfg.cap.Some? ==> 1 <= cfg.cap.value)
    ensures Runs(Init(cfg), toTest) && OneWorker(Final(Init(cfg), toTest), CheckGen) && Final(Init(cfg), toTest).cfg == cfg
    ensures Runs(Init(cfg), toGate) && OneWorker(Final(Init(cfg), toGate), GateAgain) && Final(Init(cfg), toGate).cfg == cfg
  {
    var s, e := Init(cfg), Step(0, true, true);
    assert OneWorker(Next(s, Schedule(Enrich)), GateFirst);
    toTest := [];
    RunMore(s, toTest, Schedule(Enrich));
    toTest := toTest + [Schedule(Enrich)];
    hide OneWorker, Next, Runs, Final, Init, Enabled;
    OneStep(Final(s, toTest), GateFirst);
    RunMore(s, toTest, e);
    toTest := toTest + [e];
    assert OneWorker(Final(s, toTest), AcquireSlot);
    OneStep(Final(s, toTest), AcquireSlot);
    RunMore(s, toTest, e);
    toTest := toTest + [e];
    OneStep(Final(s, toTest), LockWork);
    RunMore(s, toTest, e);
    toTest := toTest + [e];
    OneStep(Final(s, toTest), CheckCtx);
    RunMore(s, toTest, e);
    toTest := toTest + [e];
    OneStep(Final(s, toTest), CheckGen);
    RunMore(s, toTest, e);
    toGate := toTest + [e];
  }

  /** A run in which a job at its generation test begins after shutdown's cancel. */
  lemma StartsAfterShutdown(cfg: Config) returns (before: seq<Event>, after: seq<Event>)
    requires cfg.hasStore && cfg.hasGeo && (cfg.cap.Some? ==> 1 <= cfg.cap.value)
    ensures Runs(Init(cfg), before) && Final(Init(cfg), before).started == []
    ensures var t := Next(Final(Init(cfg), before), ShutdownCancel);
      Runs(t, after) && NoSchedule(after) && t.started == [] && Final(t, after).started == [0]
  {
    var toTest, toGate := JobComesToGate(cfg);
    before := toTest;
    InitInv(cfg);
    RunKeepsInv(Init(cfg), before);
    var s := Final(Init(cfg), before);
    hide Inv, Next, Final, Runs, Init, Begun;
    ShutdownState(s);
    assert Able(s, 0);
    after := AbleStarts(Next(s, ShutdownCancel), 0);
    StartedIsBegun(Next(s, ShutdownCancel), after);
  }

  /** A run in which a job at its gate begins after the schedule that supersedes it. */
  lemma StartsAfterSchedule(cfg: Config) returns (before: seq<Event>, after: seq<Event>)
    requires cfg.hasStore && cfg.hasGeo && (cfg.cap.Some? ==> 1 <= cfg.cap.value)
    ensures Runs(Init(cfg), before) && Final(Init(cfg), before).started == []
    ensures var t := Next(Final(Init(cfg), before), Schedule(Enrich));
      |t.workers| == 2 && Runs(t, after) && NoSchedule(after) && t.started == [] && Final(t, after).started == [0]
  {
    var toTest, toGate := JobComesToGate(cfg);
    before := toGate;
    InitInv(cfg);
    RunKeepsInv(Init(cfg), before);
    var s := Final(Init(cfg), before);
    assert |Next(s, Schedule(Enrich)).workers| == 2;
    hide Inv, Next, Final, Runs, Init, Begun;
    ScheduledState(s, Enrich);
    after := AbleStarts(Next(s, Schedule(Enrich)), 0);
    StartedIsBegun(Next(s, Schedule(Enrich)), after);
  }
}
