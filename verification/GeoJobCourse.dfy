/** Which job body a worker runs: the body points it comes to, and what each of them needs. */
module GeoJobCourse {
  import opened Common
  import opened GeoJobProtocol

  /** The parts of a job, in order: store and geo index calls as the source makes them. */
  function Course(kind: Kind): seq<Pc> {
    match kind
    case Enrich => [BodyEnrich]
    case ReloadAndEnrich => [BodyReload, BodyEnrich]
    case Maintenance => [BodyEdges, BodyGeoEdges, BodyEnrich]
  }

  /** The body point that worker i comes to with this event. */
  function Enters(s: State, e: Event, i: nat): seq<Pc>
    requires Enabled(s, e)
  {
    if e.Step? && e.i == i && InBody(Next(s, e).workers[i].pc) then [Next(s, e).workers[i].pc] else []
  }

  /** The body points that worker i comes to along a run. */
  function Entered(s: State, es: seq<Event>, i: nat): seq<Pc>
    requires Runs(s, es)
    decreases |es|
  {
    if es == [] then [] else Enters(s, es[0], i) + Entered(Next(s, es[0]), es[1..], i)
  }

  /** The worker has not come to its job yet. */
  predicate BeforeBody(pc: Pc) {
    BeforeSlot(pc) || pc.LockWork? || pc.CheckCtx? || pc.CheckGen? || pc.GateAgain?
  }

  /** After the body points in done: a part of the course, the last one being where the worker is. */
  predicate OnCourse(w: Worker, done: seq<Pc>) {
    done <= Course(w.kind) && (BeforeBody(w.pc) ==> done == []) &&
    (InBody(w.pc) ==> done != [] && done[|done| - 1] == w.pc)
  }

  /** The same for worker i of a state; a worker still to be scheduled has done nothing. */
  predicate Follows(s: State, i: nat, done: seq<Pc>) {
    (if i < |s.workers| then OnCourse(s.workers[i], done) else done == []) && (i in s.started <==> done != [])
  }

  /** The answers at a body point let the job go on to its next part. */
  predicate GoesOn(s: State, w: Worker, flag: bool, ranges: bool) {
    (w.pc.BodyEdges? && !flag && !w.cancelled) ||
    (w.pc.BodyGeoEdges? && !flag && s.cfg.hasGeo && ranges) ||
    (w.pc.BodyReload? && !w.cancelled)
  }

  /** A gate that gives a maintenance job a reason to skip. */
  predicate GateClosed(s: State, w: Worker, flag: bool) {
    w.kind.Maintenance? && s.cfg.hasGate && flag
  }

  /**
   * From its second gate a worker comes to the first part of its course unless the gate
   * is closed; from a part to the next one exactly under the answers of GoesOn, and
   * otherwise out of its body. Nowhere else does it come to a body point.
   */
  lemma CourseStep(s: State, i: nat, flag: bool, ranges: bool, done: seq<Pc>)
    requires StepEnabled(s, i, flag) && OnCourse(s.workers[i], done)
    ensures var w, e := s.workers[i], Step(i, flag, ranges);
      Enters(s, e, i) ==
        if w.pc.GateAgain? && !GateClosed(s, w, flag) then [Course(w.kind)[0]]
        else if InBody(w.pc) && GoesOn(s, w, flag, ranges) && |done| < |Course(w.kind)| then [Course(w.kind)[|done|]]
        else []
    ensures InBody(s.workers[i].pc) && GoesOn(s, s.workers[i], flag, ranges) ==> |done| < |Course(s.workers[i].kind)|
    ensures InBody(s.workers[i].pc) && !GoesOn(s, s.workers[i], flag, ranges) ==>
      Next(s, Step(i, flag, ranges)).workers[i].pc.UnlockWork?
    ensures OnCourse(Next(s, Step(i, flag, ranges)).workers[i], done + Enters(s, Step(i, flag, ranges), i))
  {
    var w := s.workers[i];
    if InBody(w.pc) {
      AtPart(w, done);
      BodyStep(s, i, flag, ranges, done);
    } else {
      CheckStep(s, i, flag, ranges);
    }
    hide NextPc, Course, Enters, Next;
  }

  /** A step outside the body: into it from the second gate alone. */
  lemma CheckStep(s: State, i: nat, flag: bool, ranges: bool)
    requires StepEnabled(s, i, flag) && !InBody(s.workers[i].pc)
    ensures var w, t, e := s.workers[i], Next(s, Step(i, flag, ranges)).workers[i], Step(i, flag, ranges);
      Enters(s, e, i) == (if w.pc.GateAgain? && !GateClosed(s, w, flag) then [Course(w.kind)[0]] else []) &&
      t.kind == w.kind && (InBody(t.pc) ==> Enters(s, e, i) == [t.pc]) && (BeforeBody(t.pc) ==> BeforeBody(w.pc)) &&
      (InBody(t.pc) ==> BeforeBody(w.pc)) && Course(w.kind) != []
  {
  }

  /** A step in the body: to the next part, or out. */
  lemma BodyStep(s: State, i: nat, flag: bool, ranges: bool, done: seq<Pc>)
    requires StepEnabled(s, i, flag) && OnCourse(s.workers[i], done) && InBody(s.workers[i].pc)
    ensures var w, t, e := s.workers[i], Next(s, Step(i, flag, ranges)).workers[i], Step(i, flag, ranges);
      t.kind == w.kind && !BeforeBody(t.pc) &&
      if GoesOn(s, w, flag, ranges)
      then |done| < |Course(w.kind)| && Enters(s, e, i) == [Course(w.kind)[|done|]] && t.pc == Course(w.kind)[|done|]
      else Enters(s, e, i) == [] && t.pc.UnlockWork?
  {
    AtPart(s.workers[i], done);
    hide OnCourse;
  }

  /** Where a worker is tells how far it has come. */
  lemma AtPart(w: Worker, done: seq<Pc>)
    requires OnCourse(w, done) && InBody(w.pc)
    ensures |done| == (if w.pc.BodyEdges? || w.pc.BodyReload? then 1
                       else if w.pc.BodyGeoEdges? then 2
                       else |Course(w.kind)|)
    ensures w.pc.BodyEdges? || w.pc.BodyGeoEdges? ==> w.kind.Maintenance?
    ensures w.pc.BodyReload? ==> w.kind.ReloadAndEnrich?
  {
    assert done[|done| - 1] == Course(w.kind)[|done| - 1];
  }

  lemma NextFollows(s: State, e: Event, i: nat, done: seq<Pc>)
    requires Enabled(s, e) && Follows(s, i, done)
    ensures Follows(Next(s, e), i, done + Enters(s, e, i))
  {
    var t := Next(s, e);
    if e.Step? && e.i == i {
      CourseStep(s, i, e.flag, e.ranges, done);
      StartedStep(s, e);
    } else {
      assert done + [] == done;
      OthersStay(s, e, i);
    }
  }

  /** A worker is listed as started when it leaves its second gate for its body. */
  lemma StartedStep(s: State, e: Event)
    requires Enabled(s, e) && e.Step?
    ensures Next(s, e).started ==
      if s.workers[e.i].pc.GateAgain? && InBody(Next(s, e).workers[e.i].pc) then s.started + [e.i] else s.started
  {
  }

  lemma OthersStay(s: State, e: Event, i: nat)
    requires Enabled(s, e) && !(e.Step? && e.i == i)
    ensures |s.workers| <= |Next(s, e).workers|
    ensures i < |s.workers| ==> Next(s, e).workers[i].pc == s.workers[i].pc && Next(s, e).workers[i].kind == s.workers[i].kind
    ensures |s.workers| <= i < |Next(s, e).workers| ==> Next(s, e).workers[i].pc.GateFirst?
    ensures i in Next(s, e).started <==> i in s.started
  {
    if e.Step? {
      StartedStep(s, e);
    }
  }

  lemma {:induction false} RunFollows(s: State, es: seq<Event>, i: nat, done: seq<Pc>)
    requires Runs(s, es) && Follows(s, i, done)
    ensures Follows(Final(s, es), i, done + Entered(s, es, i))
    decreases |es|
  {
    hide Follows, Enters, Next, Enabled;
    if es == [] {
      assert done + [] == done;
    } else {
      var e, rest := Enters(s, es[0], i), Entered(Next(s, es[0]), es[1..], i);
      NextFollows(s, es[0], i, done);
      RunFollows(Next(s, es[0]), es[1..], i, done + e);
      assert done + e + rest == done + (e + rest);
    }
  }

  /**
   * Over every run: the body points a worker comes to are a beginning of its kind's
   * course. It is listed as started exactly when it has come to the first of them, and
   * while it is in its body it is at the last of them.
   */
  lemma JobsRunTheirCourse(cfg: Config, es: seq<Event>, i: nat)
    requires Runs(Init(cfg), es) && i < |Final(Init(cfg), es).workers|
    ensures var s, done := Final(Init(cfg), es), Entered(Init(cfg), es, i);
      done <= Course(s.workers[i].kind) &&
      (i in s.started <==> done != []) &&
      (InBody(s.workers[i].pc) ==> done != [] && done[|done| - 1] == s.workers[i].pc)
  {
    RunFollows(Init(cfg), es, i, []);
    assert [] + Entered(Init(cfg), es, i) == Entered(Init(cfg), es, i);
  }

  lemma {:induction false} EnteredMore(s: State, es: seq<Event>, e: Event, i: nat)
    requires Runs(s, es) && Enabled(Final(s, es), e)
    ensures Runs(s, es + [e]) && Entered(s, es + [e], i) == Entered(s, es, i) + Enters(Final(s, es), e, i)
    decreases |es|
  {
    RunMore(s, es, e);
    hide Enters, Next, Enabled;
    if es == [] {
      assert es + [e] == [e] && [e][1..] == [];
      assert Entered(Next(s, e), [], i) == [];
    } else {
      assert (es + [e])[0] == es[0] && (es + [e])[1..] == es[1..] + [e];
      EnteredMore(Next(s, es[0]), es[1..], e, i);
    }
  }

  /**
   * Exactly when a job comes to its next part. After any run: a worker at its second gate
   * comes to the first part of its course unless the gate is closed, a worker in its body
   * to the next part exactly when the answers let it go on, and nobody else to any.
   */
  lemma NextPartExactly(cfg: Config, es: seq<Event>, i: nat, flag: bool, ranges: bool)
    requires Runs(Init(cfg), es) && Enabled(Final(Init(cfg), es), Step(i, flag, ranges))
    ensures var s, done := Final(Init(cfg), es), Entered(Init(cfg), es, i);
      var w, more := s.workers[i], es + [Step(i, flag, ranges)];
      Runs(Init(cfg), more) &&
      if (w.pc.GateAgain? && !GateClosed(s, w, flag)) || (InBody(w.pc) && GoesOn(s, w, flag, ranges))
      then |done| < |Course(w.kind)| && Entered(Init(cfg), more, i) == Course(w.kind)[..|done| + 1]
      else Entered(Init(cfg), more, i) == done
  {
    var s, done := Final(Init(cfg), es), Entered(Init(cfg), es, i);
    RunFollows(Init(cfg), es, i, []);
    assert [] + done == done;
    EnteredMore(Init(cfg), es, Step(i, flag, ranges), i);
    CourseStep(s, i, flag, ranges, done);
    hide Enters, Next, Runs, Final, Entered, StepEnabled;
    NextPrefix(done, Course(s.workers[i].kind));
  }

  lemma NextPrefix(done: seq<Pc>, course: seq<Pc>)
    requires done <= course
    ensures |done| < |course| ==> done + [course[|done|]] == course[..|done| + 1]
    ensures done + [] == done
  {
  }

  // ---- closed gates ----

  /** Whenever worker i asks at its second gate, the gate is closed. */
  predicate GateStaysClosed(s: State, es: seq<Event>, i: nat)
    requires Runs(s, es)
    decreases |es|
  {
    es == [] ||
    ((es[0].Step? && es[0].i == i && s.workers[i].pc.GateAgain? ==> es[0].flag) && GateStaysClosed(Next(s, es[0]), es[1..], i))
  }

  predicate Waiting(s: State, i: nat) {
    i !in s.started && s.cfg.hasGate && (i < |s.workers| ==> s.workers[i].kind.Maintenance?)
  }

  /** A maintenance job that finds its second gate closed never begins. */
  lemma {:induction false} ClosedGateKeepsOut(s: State, es: seq<Event>, i: nat)
    requires Runs(s, es) && GateStaysClosed(s, es, i) && Waiting(s, i) && i < |s.workers|
    ensures i !in Final(s, es).started
    decreases |es|
  {
    if es != [] {
      var e := es[0];
      if e.Step? && e.i == i {
        StartedStep(s, e);
        assert s.workers[i].pc.GateAgain? ==> !InBody(Next(s, e).workers[i].pc);
        assert Next(s, e).workers[i].kind == s.workers[i].kind;
      } else {
        OthersStay(s, e, i);
      }
      assert Next(s, e).cfg == s.cfg;
      hide Next;
      ClosedGateKeepsOut(Next(s, e), es[1..], i);
    }
  }

  /** At the first gate a closed gate ends the worker before it asks for a slot. */
  lemma ClosedGateTakesNoSlot(s: State, i: nat, flag: bool, ranges: bool)
    requires i < |s.workers| && s.workers[i].pc.GateFirst?
    ensures var t := Next(s, Step(i, flag, ranges));
      t.slots == s.slots && (if GateClosed(s, s.workers[i], flag) then t.workers[i].pc.WgDone? else t.workers[i].pc.AcquireSlot?)
  {
  }

  // ---- what a job needs is there ----

  /** Every worker has a store, and none but maintenance jobs are there without a geo index. */
  predicate Equipped(s: State) {
    forall i :: 0 <= i < |s.workers| ==> HasItsNeeds(s.cfg, s.workers[i])
  }

  predicate HasItsNeeds(cfg: Config, w: Worker) {
    cfg.hasStore && (w.kind.Maintenance? || cfg.hasGeo) && (w.pc.BodyEnrich? ==> cfg.hasGeo)
  }

  lemma NextEquipped(s: State, e: Event)
    requires Enabled(s, e) && Equipped(s) && AllInCourse(s)
    ensures Equipped(Next(s, e)) && AllInCourse(Next(s, e))
  {
    var t := Next(s, e);
    forall i | 0 <= i < |t.workers|
      ensures HasItsNeeds(t.cfg, t.workers[i])
      ensures InBody(t.workers[i].pc) ==> InCourse(t.workers[i])
    {
      assert t.cfg == s.cfg;
      if e.Step? && e.i == i {
        StepEquipped(s, i, e.flag, e.ranges);
      } else {
        OthersStay(s, e, i);
        assert i < |s.workers| ==> HasItsNeeds(s.cfg, s.workers[i]);
        assert i < |s.workers| || (e.Schedule? && t.workers[i].kind == e.kind);
      }
    }
  }

  lemma StepEquipped(s: State, i: nat, flag: bool, ranges: bool)
    requires StepEnabled(s, i, flag) && Equipped(s) && AllInCourse(s)
    ensures var w := DoStep(s, i, flag, ranges).workers[i];
      w.kind == s.workers[i].kind && (w.pc.BodyEnrich? ==> s.cfg.hasGeo) && (InBody(w.pc) ==> InCourse(w))
  {
    assert HasItsNeeds(s.cfg, s.workers[i]);
    assert InBody(s.workers[i].pc) ==> InCourse(s.workers[i]);
  }

  /** Every worker in its body is at a part of its own course. */
  predicate AllInCourse(s: State) {
    forall i :: 0 <= i < |s.workers| && InBody(s.workers[i].pc) ==> InCourse(s.workers[i])
  }

  predicate InCourse(w: Worker) {
    w.pc in Course(w.kind)
  }

  lemma {:induction false} RunEquipped(s: State, es: seq<Event>)
    requires Runs(s, es) && Equipped(s) && AllInCourse(s)
    ensures Equipped(Final(s, es)) && AllInCourse(Final(s, es))
    decreases |es|
  {
    hide Equipped, Next, AllInCourse;
    if es != [] {
      NextEquipped(s, es[0]);
      RunEquipped(Next(s, es[0]), es[1..]);
    }
  }

  /** In every run, whoever looks up and stores locations has a store and a geo index to do it with. */
  lemma NothingAbsentIsUsed(cfg: Config, es: seq<Event>)
    requires Runs(Init(cfg), es)
    ensures Equipped(Final(Init(cfg), es))
  {
    RunEquipped(Init(cfg), es);
  }

  /** A schedule call adds a worker of its kind exactly when what the job needs is there, and changes nothing otherwise. */
  lemma ScheduleAccepts(s: State, kind: Kind)
    ensures var t := Next(s, Schedule(kind));
      if s.cfg.hasStore && (kind.Maintenance? || s.cfg.hasGeo)
      then |t.workers| == |s.workers| + 1 && t.workers[|s.workers|].kind == kind && t.workers[|s.workers|].pc.GateFirst? &&
        !t.workers[|s.workers|].cancelled && t.workers[|s.workers|].gen == t.gen
      else t == s
  {
  }
}
