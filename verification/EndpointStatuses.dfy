/** The status each completion callback is called with: that of the end of its own job. */
module EndpointStatuses {
  import opened EndpointSteps
  import opened EndpointLifecycle
  import opened Packets

  datatype Told = Told(job: nat, status: Status)

  /** The completion callbacks called, with the jobs they belong to. */
  function CallLog(calls: seq<Call>): seq<Told> {
    if |calls| == 0 then []
    else
      var last := calls[|calls| - 1];
      CallLog(calls[..|calls| - 1])
        + (if last.AsTrans? && last.fn.TransFn? then [Told(last.fn.job, last.status)] else [])
  }

  /** What they should be told: jobs end in the order in which they were accepted. */
  function EndLog(ended: seq<Record>, accepted: seq<bool>): seq<Told>
    requires |ended| <= |accepted|
  {
    if |ended| == 0 then []
    else
      EndLog(ended[..|ended| - 1], accepted)
        + (if accepted[|ended| - 1] then [Told(|ended| - 1, ended[|ended| - 1].status)] else [])
  }

  /** Every accepted job but the one in progress has ended, and those with a callback have been told. */
  predicate Settled(e: Endpoint) {
    && |e.hist.accepted| == |e.hist.ended| + (if RunBusy(e) then 1 else 0)
    && CallLog(e.hist.calls) == EndLog(e.hist.ended, e.hist.accepted)
  }

  lemma CallLogAppend(calls: seq<Call>, c: Call)
    ensures CallLog(calls + [c]) ==
            CallLog(calls) + (if c.AsTrans? && c.fn.TransFn? then [Told(c.fn.job, c.status)] else [])
  {
    assert (calls + [c])[..|calls|] == calls;
  }

  lemma EndLogAppend(ended: seq<Record>, accepted: seq<bool>, r: Record)
    requires |ended| < |accepted|
    ensures EndLog(ended + [r], accepted) ==
            EndLog(ended, accepted) + (if accepted[|ended|] then [Told(|ended|, r.status)] else [])
  {
    assert (ended + [r])[..|ended|] == ended;
  }

  lemma {:induction false} EndLogAccepts(ended: seq<Record>, accepted: seq<bool>, more: bool)
    requires |ended| <= |accepted|
    ensures EndLog(ended, accepted + [more]) == EndLog(ended, accepted)
    decreases |ended|
  {
    if |ended| > 0 {
      EndLogAccepts(ended[..|ended| - 1], accepted, more);
    }
  }

  /** The end of a job tells its callback how it ended. */
  lemma FinishSettled(e: Endpoint, status: Status, n: nat)
    requires Ledger(e) && Settled(e) && !WaitBusy(e)
    ensures Settled(Finish(e, status, n))
  {
    if e.job.busy {
      var f := Finish(e, status, n);
      CallLogAppend(e.hist.calls, AsTrans(e.job.callback, status, n));
      EndLogAppend(e.hist.ended, e.hist.accepted, f.hist.ended[|e.hist.ended|]);
    }
  }

  /** Only these parts of the state matter. */
  lemma SameSettled(e: Endpoint, f: Endpoint)
    requires Settled(e) && RunBusy(f) == RunBusy(e) && f.hist.calls == e.hist.calls
    requires f.hist.accepted == e.hist.accepted && f.hist.ended == e.hist.ended
    ensures Settled(f)
  {}

  lemma AbortSettled(e: Endpoint)
    requires Ledger(e) && Settled(e) && !WaitBusy(e)
    ensures Settled(Abort(e))
  {
    var g := e.(ctrl := e.ctrl.(nack0 := true));
    FinishSettled(g, TransferAbort, if e.dirIn then e.ctrl.aux else e.ctrl.cnt);
  }

  lemma CompleteSettled(e: Endpoint)
    requires WellSized(e) && Ledger(e) && Settled(e) && RunBusy(e)
    ensures Settled(TransComplet(e))
  {
    CompletionShape(e);
    CompletedSettled(e, TransComplet(e));
  }

  lemma CompletedSettled(e: Endpoint, f: Endpoint)
    requires Ledger(e) && Settled(e) && RunBusy(e) && Completed(e, f)
    ensures Settled(f)
  {
    if f.job.busy {
      SameSettled(e, f);
    } else {
      var g := e.(job := f.job.(busy := true));
      SameLedger(e, g);
      SameSettled(e, g);
      FinishSettled(g, TransferOk, f.job.nbTrans);
      SameSettled(Finish(g, TransferOk, f.job.nbTrans), f);
    }
  }

  lemma RunSettled(e: Endpoint, shortPacket: bool, buf: seq<byte>, hasCallback: bool)
    requires Lifecycle(e) && Settled(e)
    ensures Settled(RunJob(e, shortPacket, buf, hasCallback))
  {
    if RunAccepted(e, buf) {
      RegisteredLedger(e, shortPacket, buf, hasCallback);
      EndLogAccepts(e.hist.ended, e.hist.accepted, hasCallback);
      CompleteSettled(Registered(e, shortPacket, buf, hasCallback));
    }
  }

  lemma HaltSettled(e: Endpoint)
    requires Settled(e) && !(e.ctrl.stall && RunBusy(e))
    ensures Settled(ClearHalt(e))
  {
    CallLogAppend(e.hist.calls, AsNoHalt(e.job.callback));
  }

  lemma WaitSettled(e: Endpoint, hasCallback: bool)
    requires Settled(e)
    ensures Settled(WaitStallClear(e, hasCallback))
  {
    CallLogAppend(e.hist.calls, AsNoHalt(if hasCallback then NoHaltFn(e.hist.registrations) else NullPtr));
  }

  lemma StepKeepsSettled(e: Endpoint, ev: Event)
    requires Lifecycle(e) && Settled(e) && Occurs(e, ev) && Sane(e, ev)
    ensures Settled(Step(e, ev))
  {
    match ev
    case EvAlloc(_, _) => SameSettled(e, Step(e, ev));
    case EvFree =>
      AbortSettled(e);
      SameSettled(Abort(e), Free(e));
    case EvSetHalt =>
      var g := e.(ctrl := e.ctrl.(stall := true));
      SameLedger(e, g);
      AbortSettled(g);
    case EvClearHalt => HaltSettled(e);
    case EvRun(shortPacket, buf, hasCallback) => RunSettled(e, shortPacket, buf, hasCallback);
    case EvAbort => AbortSettled(e);
    case EvWaitStallClear(hasCallback) => WaitSettled(e, hasCallback);
    case EvSent =>
      SameLedger(e, HwSent(e));
      CompleteSettled(HwSent(e));
    case EvReceived(data) =>
      SameLedger(e, HwReceived(e, data));
      CompleteSettled(HwReceived(e, data));
  }

  /** No job ends, or one does with the given status. */
  predicate EndsWith(e: Endpoint, f: Endpoint, status: Status) {
    var before, after := e.hist.ended, f.hist.ended;
    after == before ||
    (|after| == |before| + 1 && after[..|before|] == before && after[|before|].status == status)
  }

  lemma CompletionEnds(e: Endpoint)
    requires WellSized(e)
    ensures EndsWith(e, TransComplet(e), TransferOk)
  {}

  /** A job ends with OK by a completion and with ABORT by an abort, a halt or a release. */
  lemma EndedBy(e: Endpoint, ev: Event)
    requires WellSized(e) && Occurs(e, ev)
    ensures EndsWith(e, Step(e, ev), if ev in {EvAbort, EvFree, EvSetHalt} then TransferAbort else TransferOk)
  {
    hide InComplete, OutComplete;
    match ev
    case EvRun(shortPacket, buf, hasCallback) => CompletionEnds(Registered(e, shortPacket, buf, hasCallback));
    case EvSent => CompletionEnds(HwSent(e));
    case EvReceived(data) => CompletionEnds(HwReceived(e, data));
    case _ =>
  }

  /** Over every run: the completion callbacks are called in the order of their jobs, each with the
      status with which its job has ended. */
  lemma {:induction false} RunKeepsSettled(e: Endpoint, evs: seq<Event>)
    requires Lifecycle(e) && Settled(e) && Possible(e, evs) && SaneRun(e, evs)
    ensures Settled(Run(e, evs))
    decreases |evs|
  {
    if |evs| > 0 {
      StepKeepsLifecycle(e, evs[0]);
      StepKeepsSettled(e, evs[0]);
      RunKeepsSettled(Step(e, evs[0]), evs[1..]);
    }
  }

  lemma InitialSettled(dirIn: bool)
    ensures Settled(Initial(dirIn))
  {}
}
