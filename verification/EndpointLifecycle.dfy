/** What every run keeps about jobs, callbacks and halts. */
module EndpointLifecycle {
  import opened EndpointSteps
  import opened Packets

  /** The job in progress was registered by udd_ep_run. */
  predicate RunBusy(e: Endpoint) { e.job.busy && !e.hist.waiting }

  /** The job in progress waits for the end of a halt. */
  predicate WaitBusy(e: Endpoint) { e.job.busy && e.hist.waiting }

  /** Calls of the completion callback of a job. */
  function TransCalls(calls: seq<Call>, job: nat): nat {
    if |calls| == 0 then 0
    else
      var last := calls[|calls| - 1];
      TransCalls(calls[..|calls| - 1], job) + (if last.AsTrans? && last.fn == TransFn(job) then 1 else 0)
  }

  /** Calls of the callback of a halt registration. */
  function NoHaltCalls(calls: seq<Call>, registration: nat): nat {
    if |calls| == 0 then 0
    else
      var last := calls[|calls| - 1];
      NoHaltCalls(calls[..|calls| - 1], registration)
        + (if last.AsNoHalt? && last.fn == NoHaltFn(registration) then 1 else 0)
  }

  /** The union member a callback is called through is the one it was stored in. */
  predicate WellRead(c: Call) {
    match c
    case AsTrans(fn, _, _) => fn.TransFn?
    case AsNoHalt(fn) => fn.NoHaltFn?
  }

  /** The transfer registers agree with the job: armed exactly while a job of udd_ep_run is in
      progress, and then on an enabled endpoint that is not halted, unless it is isochronous. */
  predicate Wired(e: Endpoint) {
    && (!e.ctrl.nack0 <==> RunBusy(e))
    && (RunBusy(e) ==> IsEnabled(e) && (e.ctrl.stall ==> e.ctrl.epType.Isochronous?))
  }

  /** The job whose callback is still owed. */
  predicate Pending(e: Endpoint, id: nat) {
    RunBusy(e) && e.job.callback == TransFn(id)
  }

  /** Every accepted job with a callback is in progress or its callback has been called exactly
      once; every halt registration likewise; nothing else has been called. */
  ghost predicate Ledger(e: Endpoint) {
    var calls, accepted := e.hist.calls, e.hist.accepted;
    && (RunBusy(e) ==> |accepted| > 0)
    && (RunBusy(e) ==> e.job.callback == if accepted[|accepted| - 1] then TransFn(|accepted| - 1) else NullPtr)
    && (WaitBusy(e) ==> e.job.callback.NoHaltFn? && e.job.callback.registration < e.hist.registrations)
    && (forall i :: 0 <= i < |calls| ==> WellRead(calls[i]))
    && (forall id: nat ::
          TransCalls(calls, id) == if id < |accepted| && accepted[id] && !Pending(e, id) then 1 else 0)
    && (forall r: nat :: NoHaltCalls(calls, r) ==
          if r < e.hist.registrations && !(WaitBusy(e) && e.job.callback == NoHaltFn(r)) then 1 else 0)
  }

  ghost predicate Lifecycle(e: Endpoint) {
    WellSized(e) && Wired(e) && Ledger(e)
  }

  /** What the driver expects of its callers.  Nothing aborts a registered wait for the end of a
      halt, and such a wait has a callback.  A halted isochronous endpoint is not released while it
      runs a job; no other endpoint ever runs one then (HaltExclusion). */
  predicate Sane(e: Endpoint, ev: Event) {
    match ev
    case EvAbort => !WaitBusy(e)
    case EvFree => !WaitBusy(e)
    case EvSetHalt => !WaitBusy(e)
    case EvClearHalt => e.ctrl.epType.Isochronous? ==> !(e.ctrl.stall && RunBusy(e))
    case EvWaitStallClear(hasCallback) => hasCallback
    case _ => true
  }

  lemma CallCounts(calls: seq<Call>, c: Call)
    ensures forall id: nat :: TransCalls(calls + [c], id) == TransCalls(calls, id)
              + (if c.AsTrans? && c.fn == TransFn(id) then 1 else 0)
    ensures forall r: nat :: NoHaltCalls(calls + [c], r) == NoHaltCalls(calls, r)
              + (if c.AsNoHalt? && c.fn == NoHaltFn(r) then 1 else 0)
  {
    assert (calls + [c])[..|calls|] == calls;
  }

  /** The end of a job settles its entry in the ledger. */
  lemma FinishLedger(e: Endpoint, status: Status, n: nat)
    requires Ledger(e) && !WaitBusy(e)
    ensures Ledger(Finish(e, status, n)) && !Finish(e, status, n).job.busy
  {
    CallCounts(e.hist.calls, AsTrans(e.job.callback, status, n));
  }

  lemma AbortLifecycle(e: Endpoint)
    requires WellSized(e) && Ledger(e) && !WaitBusy(e)
    ensures Lifecycle(Abort(e)) && !Abort(e).job.busy
  {
    FinishLedger(e.(ctrl := e.ctrl.(nack0 := true)), TransferAbort, if e.dirIn then e.ctrl.aux else e.ctrl.cnt);
  }

  /** The ledger looks at the job's identity and the history only. */
  lemma SameLedger(e: Endpoint, f: Endpoint)
    requires Ledger(e)
    requires f.job.busy == e.job.busy && f.job.callback == e.job.callback
    requires f.hist.calls == e.hist.calls && f.hist.accepted == e.hist.accepted
    requires f.hist.registrations == e.hist.registrations && f.hist.waiting == e.hist.waiting
    ensures Ledger(f)
  {}

  /** A completion leaves the history alone, or it is that of the end of the job. */
  predicate Completed(e: Endpoint, f: Endpoint) {
    && f.job.callback == e.job.callback
    && f.hist == if f.job.busy then e.hist
                 else Finish(e.(job := f.job.(busy := true)), TransferOk, f.job.nbTrans).hist
  }

  lemma CompletionShape(e: Endpoint)
    requires WellSized(e) && e.job.busy
    ensures Completed(e, TransComplet(e))
  {}

  lemma CompletionWired(e: Endpoint)
    requires WellSized(e) && RunBusy(e) && e.ctrl.nack0
    requires IsEnabled(e) && (e.ctrl.stall ==> e.ctrl.epType.Isochronous?)
    ensures WellSized(TransComplet(e)) && Wired(TransComplet(e))
  {}

  /** A completion either arms the next transfer or ends the job. */
  lemma CompleteLifecycle(e: Endpoint)
    requires WellSized(e) && Ledger(e) && RunBusy(e) && e.ctrl.nack0
    requires IsEnabled(e) && (e.ctrl.stall ==> e.ctrl.epType.Isochronous?)
    ensures Lifecycle(TransComplet(e))
  {
    CompletionWired(e);
    CompletionShape(e);
    CompletedLedger(e, TransComplet(e));
  }

  lemma CompletedLedger(e: Endpoint, f: Endpoint)
    requires Ledger(e) && RunBusy(e) && Completed(e, f)
    ensures Ledger(f)
  {
    if f.job.busy {
      SameLedger(e, f);
    } else {
      var g := e.(job := f.job.(busy := true));
      SameLedger(e, g);
      FinishLedger(g, TransferOk, f.job.nbTrans);
      SameLedger(Finish(g, TransferOk, f.job.nbTrans), f);
    }
  }

  lemma RegisteredLedger(e: Endpoint, shortPacket: bool, buf: seq<byte>, hasCallback: bool)
    requires Ledger(e) && !e.job.busy
    ensures Ledger(Registered(e, shortPacket, buf, hasCallback))
  {}

  lemma RunJobLifecycle(e: Endpoint, shortPacket: bool, buf: seq<byte>, hasCallback: bool)
    requires Lifecycle(e)
    ensures Lifecycle(RunJob(e, shortPacket, buf, hasCallback))
  {
    if RunAccepted(e, buf) {
      RegisteredLedger(e, shortPacket, buf, hasCallback);
      CompleteLifecycle(Registered(e, shortPacket, buf, hasCallback));
    }
  }

  lemma ClearHaltLifecycle(e: Endpoint)
    requires Lifecycle(e) && !(e.ctrl.stall && RunBusy(e))
    ensures Lifecycle(ClearHalt(e))
  {
    CallCounts(e.hist.calls, AsNoHalt(e.job.callback));
  }

  lemma WaitLifecycle(e: Endpoint)
    requires Lifecycle(e)
    ensures Lifecycle(WaitStallClear(e, true))
  {
    hide TransCalls, NoHaltCalls;
    CallCounts(e.hist.calls, AsNoHalt(NoHaltFn(e.hist.registrations)));
  }

  /** Every step keeps the lifecycle. */
  lemma StepKeepsLifecycle(e: Endpoint, ev: Event)
    requires Lifecycle(e) && Occurs(e, ev) && Sane(e, ev)
    ensures Lifecycle(Step(e, ev))
  {
    StepWellSized(e, ev);
    match ev
    case EvAlloc(_, _) =>
    case EvFree =>
      AbortLifecycle(e);
      SameLedger(Abort(e), Free(e));
    case EvSetHalt =>
      SameLedger(e, e.(ctrl := e.ctrl.(stall := true)));
      AbortLifecycle(e.(ctrl := e.ctrl.(stall := true)));
    case EvClearHalt => ClearHaltLifecycle(e);
    case EvRun(shortPacket, buf, hasCallback) => RunJobLifecycle(e, shortPacket, buf, hasCallback);
    case EvAbort => AbortLifecycle(e);
    case EvWaitStallClear(_) => WaitLifecycle(e);
    case EvSent =>
      SameLedger(e, HwSent(e));
      CompleteLifecycle(HwSent(e));
    case EvReceived(data) =>
      SameLedger(e, HwReceived(e, data));
      CompleteLifecycle(HwReceived(e, data));
  }

  ghost predicate SaneRun(e: Endpoint, evs: seq<Event>)
    requires WellSized(e) && Possible(e, evs)
    decreases |evs|
  {
    |evs| == 0 || (Sane(e, evs[0]) && SaneRun(Step(e, evs[0]), evs[1..]))
  }

  /** Over every run: callbacks are called exactly once, and a job in progress implies an enabled
      and armed endpoint. */
  lemma {:induction false} RunKeepsLifecycle(e: Endpoint, evs: seq<Event>)
    requires Lifecycle(e) && Possible(e, evs) && SaneRun(e, evs)
    ensures Lifecycle(Run(e, evs))
    decreases |evs|
  {
    if |evs| > 0 {
      StepKeepsLifecycle(e, evs[0]);
      RunKeepsLifecycle(Step(e, evs[0]), evs[1..]);
    }
  }

  lemma InitialLifecycle(dirIn: bool)
    ensures Lifecycle(Initial(dirIn))
  {}

  /** A halted endpoint that is not isochronous has no job of udd_ep_run, so releasing the halt is
      always sane and what it completes, if anything, is a registered wait. */
  lemma HaltExclusion(e: Endpoint)
    requires Lifecycle(e) && e.ctrl.stall && !e.ctrl.epType.Isochronous?
    ensures !RunBusy(e) && Sane(e, EvClearHalt)
    ensures e.job.busy ==> e.job.callback.NoHaltFn?
    ensures e.job.busy ==> ClearHalt(e).hist.calls == e.hist.calls + [AsNoHalt(e.job.callback)]
    ensures e.job.busy ==> NoHaltCalls(e.hist.calls, e.job.callback.registration) == 0
  {}

  /** Over every run from the start: a halted endpoint that is not isochronous runs no job, and what
      the end of its halt completes, if anything, is a registered wait. */
  lemma HaltExclusionHolds(dirIn: bool, evs: seq<Event>)
    requires Possible(Initial(dirIn), evs) && SaneRun(Initial(dirIn), evs)
    ensures var e := Run(Initial(dirIn), evs);
      e.ctrl.stall && !e.ctrl.epType.Isochronous? ==>
        && !RunBusy(e)
        && (e.job.busy ==> e.job.callback.NoHaltFn?)
        && (e.job.busy ==> ClearHalt(e).hist.calls == e.hist.calls + [AsNoHalt(e.job.callback)])
  {
    InitialLifecycle(dirIn);
    RunKeepsLifecycle(Initial(dirIn), evs);
    var e := Run(Initial(dirIn), evs);
    if e.ctrl.stall && !e.ctrl.epType.Isochronous? {
      HaltExclusion(e);
    }
  }

  /** The end of a halt reads the callback union as the wrong member exactly when a job of udd_ep_run
      is in progress on the halted endpoint. */
  lemma ClearHaltMisreadsIff(e: Endpoint)
    requires Lifecycle(e)
    ensures (exists i :: 0 <= i < |ClearHalt(e).hist.calls| && !WellRead(ClearHalt(e).hist.calls[i]))
       <==> e.ctrl.stall && RunBusy(e)
  {
    var calls := ClearHalt(e).hist.calls;
    if e.ctrl.stall && RunBusy(e) {
      assert !WellRead(calls[|calls| - 1]);
    }
  }

  /** The function a call is made through. */
  function Callee(c: Call): Callback { c.fn }

  /** A step calls NULL exactly when a wait without a callback is registered on an endpoint that is not
      halted, or when the halt ends under a job or wait without a callback. */
  predicate CallsNull(e: Endpoint, ev: Event) {
    || (ev.EvWaitStallClear? && !ev.hasCallback && !e.ctrl.stall)
    || (ev.EvClearHalt? && e.ctrl.stall && e.job.busy && e.job.callback.NullPtr?)
  }

  lemma NullIsCalledIff(e: Endpoint, ev: Event)
    requires WellSized(e) && Occurs(e, ev)
    ensures e.hist.calls <= Step(e, ev).hist.calls
    ensures (exists i :: |e.hist.calls| <= i < |Step(e, ev).hist.calls| && Callee(Step(e, ev).hist.calls[i]).NullPtr?)
       <==> CallsNull(e, ev)
  {
    if ev.EvRun? {
      RunNeverCallsNull(e, ev.shortPacket, ev.buf, ev.hasCallback);
    } else if ev.EvSent? {
      CompletionNeverCallsNull(HwSent(e));
    } else if ev.EvReceived? {
      CompletionNeverCallsNull(HwReceived(e, ev.data));
    } else {
      var before, after := e.hist.calls, Step(e, ev).hist.calls;
      if CallsNull(e, ev) {
        assert Callee(after[|before|]).NullPtr?;
      }
    }
  }

  /** The calls made between two states. */
  predicate NoNewNull(e: Endpoint, f: Endpoint) {
    && e.hist.calls <= f.hist.calls
    && forall i :: |e.hist.calls| <= i < |f.hist.calls| ==> !Callee(f.hist.calls[i]).NullPtr?
  }

  lemma CompletionNeverCallsNull(e: Endpoint)
    requires WellSized(e)
    ensures NoNewNull(e, TransComplet(e))
  {}

  lemma RunNeverCallsNull(e: Endpoint, shortPacket: bool, buf: seq<byte>, hasCallback: bool)
    requires WellSized(e)
    ensures NoNewNull(e, RunJob(e, shortPacket, buf, hasCallback))
  {
    CompletionNeverCallsNull(Registered(e, shortPacket, buf, hasCallback));
  }

  /** A wait registered without a callback on a halted endpoint is such a wait. */
  lemma WaitingForNull(e: Endpoint)
    requires WellSized(e) && e.ctrl.stall && !e.job.busy
    ensures CallsNull(WaitStallClear(e, false), EvClearHalt)
    ensures !CallsNull(WaitStallClear(e, true), EvClearHalt)
  {}

  /** An abort reads the callback union as the wrong member exactly when a wait is registered. */
  lemma AbortMisreadsIff(e: Endpoint)
    requires Lifecycle(e)
    ensures (exists i :: 0 <= i < |Abort(e).hist.calls| && !WellRead(Abort(e).hist.calls[i])) <==> WaitBusy(e)
  {
    var calls := Abort(e).hist.calls;
    if WaitBusy(e) {
      assert !WellRead(calls[|calls| - 1]);
    } else {
      AbortLifecycle(e);
    }
  }

  /** On an isochronous endpoint the exclusion fails: a job may start on a halted endpoint, and the
      end of the halt then calls its completion callback as if it were a halt callback. */
  lemma IsochronousHaltMisreads(buf: seq<byte>)
    requires 0 < |buf| < WORD
    ensures var evs := [EvAlloc(Isochronous, 64), EvSetHalt, EvRun(false, buf, true), EvClearHalt];
      && Possible(Initial(true), evs)
      && |Run(Initial(true), evs).hist.calls| == 1 && !WellRead(Run(Initial(true), evs).hist.calls[0])
  {
    hide OutComplete, NextTrans;
    var e0 := Initial(true);
    var e1 := Step(e0, EvAlloc(Isochronous, 64));
    var e2 := Step(e1, EvSetHalt);
    var e3 := Step(e2, EvRun(false, buf, true));
    RunCons(e3, EvClearHalt, []);
    RunCons(e2, EvRun(false, buf, true), [EvClearHalt]);
    RunCons(e1, EvSetHalt, [EvRun(false, buf, true), EvClearHalt]);
    RunCons(e0, EvAlloc(Isochronous, 64), [EvSetHalt, EvRun(false, buf, true), EvClearHalt]);
  }
}
