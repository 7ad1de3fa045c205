/**
 * The scheduler object itself: fields updated in place, one method per atomic
 * section of the code, each tied to the step of the protocol it performs.
 */
module GeoJob {
  import opened Common
  import opened HeavyTask
  import P = GeoJobProtocol

  class Scheduler {
    const hasStore: bool
    const hasGeo: bool
    const hasGate: bool
    const heavy: Limiter?

    var gen: U64
    var cancel: Option<nat>
    var wg: nat
    var workMu: Option<nat>
    var workers: seq<P.Worker>

    ghost var others: nat
    ghost var started: seq<nat>

    ghost function Abs(): P.State
      reads this, heavy
    {
      P.State(
        P.Config(if heavy == null then None else Some(heavy.cap), hasStore, hasGeo, hasGate),
        gen, cancel, workers, workMu, wg, if heavy == null then 0 else heavy.len, others, started)
    }

    ghost predicate Valid()
      reads this, heavy
    {
      (heavy != null ==> heavy.Valid()) && P.Inv(Abs())
    }

    constructor (heavy: Limiter?, hasStore: bool, hasGeo: bool, hasGate: bool)
      requires heavy != null ==> heavy.Valid() && heavy.len == 0
      ensures Valid()
      ensures this.heavy == heavy && Abs() == P.Init(Abs().cfg)
    {
      this.heavy, this.hasStore, this.hasGeo, this.hasGate := heavy, hasStore, hasGeo, hasGate;
      gen, cancel, wg, workMu, workers := 0, None, 0, None, [];
      others, started := 0, [];
      new;
      P.InitInv(Abs().cfg);
    }

    /** Calls the stored cancel function, if there is one. */
    method CancelCurrent()
      requires cancel.Some? ==> cancel.value < |workers|
      modifies this`workers
      ensures workers == P.CancelAt(old(workers), cancel)
    {
      match cancel
      case None =>
      case Some(c) => workers := workers[c := workers[c].(cancelled := true)];
    }

    /** What schedule does once its guards have passed, up to the start of the new goroutine. */
    method Enqueue(kind: P.Kind)
      requires cancel.Some? ==> cancel.value < |workers|
      requires hasStore && (kind.Maintenance? || hasGeo)
      modifies this
      ensures Abs() == P.DoSchedule(old(Abs()), kind)
    {
      CancelCurrent();
      gen := (gen + 1) % TWO64;
      workers := workers + [P.Worker(kind, gen, P.GateFirst, false, 0, 0)];
      cancel := Some(|workers| - 1);
      wg := wg + 1;
    }

    method Schedule(kind: P.Kind)
      requires Valid()
      modifies this
      ensures Valid()
      ensures Abs() == P.Next(old(Abs()), P.Schedule(kind))
    {
      P.NextKeepsInv(Abs(), P.Schedule(kind));
      if !hasStore || (!kind.Maintenance? && !hasGeo) {
        return;
      }
      Enqueue(kind);
    }

    /** The locked part of Shutdown; what follows only waits for wg. */
    method ShutdownCancel()
      requires Valid()
      modifies this
      ensures Valid()
      ensures Abs() == P.Next(old(Abs()), P.ShutdownCancel)
      ensures forall i :: 0 <= i < |workers| ==> workers[i].cancelled
    {
      P.NextKeepsInv(Abs(), P.ShutdownCancel);
      P.ShutdownState(Abs());
      CancelCurrent();
    }

    /** The wait of Shutdown, polled once: done means that nothing of any job is left. */
    method WaitDone() returns (done: bool)
      requires Valid()
      ensures done <==> forall i :: 0 <= i < |workers| ==> workers[i].pc.Ended?
      ensures done ==> workMu.None? && Abs().slots == others
    {
      P.WaitGroupZero(Abs());
      done := wg == 0;
    }

    /** The timeout of worker i's context fires. */
    method Deadline(i: nat)
      requires Valid() && i < |workers| && !workers[i].cancelled
      modifies this
      ensures Valid()
      ensures Abs() == P.Next(old(Abs()), P.Deadline(i))
    {
      P.NextKeepsInv(Abs(), P.Deadline(i));
      workers := workers[i := workers[i].(cancelled := true)];
    }

    /** Another heavy task tries the shared limiter. */
    method OtherTryAcquire() returns (ok: bool)
      requires Valid() && heavy != null
      modifies this, heavy
      ensures Valid()
      ensures ok <==> P.Enabled(old(Abs()), P.OtherAcquire)
      ensures Abs() == if ok then P.Next(old(Abs()), P.OtherAcquire) else old(Abs())
    {
      ghost var s := Abs();
      ok := heavy.TryAcquire();
      if ok {
        P.NextKeepsInv(s, P.OtherAcquire);
        others := others + 1;
      }
    }

    /** Another heavy task gives its slot back. */
    method OtherRelease()
      requires Valid() && heavy != null && others > 0
      modifies this, heavy
      ensures Valid()
      ensures Abs() == P.Next(old(Abs()), P.OtherRelease)
    {
      P.NextKeepsInv(Abs(), P.OtherRelease);
      heavy.Release();
      others := others - 1;
    }

    /** Moves worker i to another program point. */
    method Goto(i: nat, pc: P.Pc)
      requires i < |workers|
      modifies this`workers
      ensures workers == old(workers)[i := old(workers)[i].(pc := pc)]
    {
      workers := workers[i := workers[i].(pc := pc)];
    }

    /** The checks of run: the gate before the slot, then context, generation and gate again under workMu. */
    method CheckLine(i: nat, flag: bool)
      requires i < |workers|
      requires workers[i].pc.GateFirst? || workers[i].pc.CheckCtx? || workers[i].pc.CheckGen? || workers[i].pc.GateAgain?
      modifies this
      ensures Abs() == P.DoStep(old(Abs()), i, flag, false)
    {
      var w := workers[i];
      if w.kind.Maintenance? && hasGate && flag && (w.pc.GateFirst? || w.pc.GateAgain?) {
        Goto(i, if w.pc.GateFirst? then P.WgDone else P.UnlockWork);
        return;
      }
      if w.pc.GateFirst? {
        Goto(i, P.AcquireSlot);
      } else if w.pc.CheckCtx? {
        Goto(i, if w.cancelled then P.UnlockWork else P.CheckGen);
      } else if w.pc.CheckGen? {
        Goto(i, if w.gen != gen then P.UnlockWork else P.GateAgain);
      } else {
        Goto(i, P.FirstBodyPc(w.kind));
        started := started + [i];
      }
    }

    /** The job bodies: a failed store call or a cancelled context ends them early. */
    method BodyLine(i: nat, flag: bool, ranges: bool)
      requires i < |workers| && P.InBody(workers[i].pc)
      modifies this
      ensures Abs() == P.DoStep(old(Abs()), i, flag, ranges)
    {
      var w := workers[i];
      if w.pc.BodyEdges? && !flag && !w.cancelled {
        Goto(i, P.BodyGeoEdges);
      } else if w.pc.BodyGeoEdges? && !flag && hasGeo && ranges {
        Goto(i, P.BodyEnrich);
      } else if w.pc.BodyReload? && !w.cancelled {
        Goto(i, P.BodyEnrich);
      } else {
        Goto(i, P.UnlockWork);
      }
    }

    method RunLine(i: nat, flag: bool, ranges: bool)
      requires Valid() && P.StepEnabled(Abs(), i, flag)
      requires !workers[i].pc.AcquireSlot? && !workers[i].pc.LockWork?
      requires !workers[i].pc.UnlockWork? && !workers[i].pc.ReleaseSlot? && !workers[i].pc.WgDone?
      modifies this
      ensures Valid()
      ensures Abs() == P.Next(old(Abs()), P.Step(i, flag, ranges))
    {
      P.NextKeepsInv(Abs(), P.Step(i, flag, ranges));
      hide P.Inv;
      if P.InBody(workers[i].pc) {
        BodyLine(i, flag, ranges);
      } else {
        P.ChecksIgnoreRanges(Abs(), i, flag, ranges);
        CheckLine(i, flag);
      }
    }

    /** The heavy slot: Acquire wakes up with the slot or with the context done. */
    method TakeSlot(cancelled: bool) returns (took: bool)
      requires heavy != null ==> heavy.Valid() && (heavy.len < heavy.cap || cancelled)
      modifies heavy
      ensures heavy != null ==> heavy.Valid()
      ensures took ==> P.SlotFree(old(Abs()))
      ensures !took ==> heavy != null && cancelled
      ensures Abs() == old(Abs()).(slots := if took && heavy != null then old(Abs()).slots + 1 else old(Abs()).slots)
    {
      took := true;
      if heavy != null {
        took := heavy.Acquire(cancelled);
      }
    }

    method RunAcquire(i: nat) returns (took: bool)
      requires Valid() && i < |workers| && workers[i].pc.AcquireSlot?
      requires heavy == null || heavy.len < heavy.cap || workers[i].cancelled
      modifies this, heavy
      ensures Valid()
      ensures P.StepEnabled(old(Abs()), i, took)
      ensures Abs() == P.Next(old(Abs()), P.Step(i, took, false))
    {
      ghost var s := Abs();
      took := TakeSlot(workers[i].cancelled);
      P.AcquireStep(s, i, took);
      hide P.Inv, P.Next;
      if took {
        workers := workers[i := workers[i].(pc := P.LockWork, taken := workers[i].taken + 1)];
      } else {
        Goto(i, P.WgDone);
      }
    }

    method RunLock(i: nat)
      requires Valid() && i < |workers| && workers[i].pc.LockWork? && workMu.None?
      modifies this
      ensures Valid()
      ensures Abs() == P.Next(old(Abs()), P.Step(i, true, false))
    {
      P.LockStep(Abs(), i);
      hide P.Inv, P.Next;
      workMu := Some(i);
      Goto(i, P.CheckCtx);
    }

    /** The deferred calls run last one first: this unlocks workMu. */
    method RunUnlock(i: nat)
      requires Valid() && i < |workers| && workers[i].pc.UnlockWork?
      modifies this
      ensures Valid()
      ensures Abs() == P.Next(old(Abs()), P.Step(i, true, false))
    {
      P.UnlockStep(Abs(), i);
      hide P.Inv, P.Next;
      workMu := None;
      Goto(i, P.ReleaseSlot);
    }

    /** Then the heavy slot goes back. */
    method RunRelease(i: nat)
      requires Valid() && i < |workers| && workers[i].pc.ReleaseSlot?
      modifies this, heavy
      ensures Valid()
      ensures Abs() == P.Next(old(Abs()), P.Step(i, true, false))
    {
      P.ReleaseStep(Abs(), i);
      hide P.Inv, P.Next;
      if heavy != null {
        heavy.Release();
      }
      workers := workers[i := workers[i].(pc := P.WgDone, released := workers[i].released + 1)];
    }

    /** Last, the goroutine leaves the wait group. */
    method RunDone(i: nat)
      requires Valid() && i < |workers| && workers[i].pc.WgDone?
      modifies this
      ensures Valid()
      ensures Abs() == P.Next(old(Abs()), P.Step(i, true, false))
    {
      P.DoneStep(Abs(), i);
      hide P.Inv, P.Next;
      wg := wg - 1;
      Goto(i, P.Ended);
    }
  }
}
