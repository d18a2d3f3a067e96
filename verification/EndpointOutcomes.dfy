/** What a whole transfer comes to: an IN job always ends with its buffer on the bus, and an OUT job
    keeps count for every host exactly when its buffer does not end too close to 64 KiB. */
module EndpointOutcomes {
  import opened Arithmetic
  import opened EndpointSteps
  import opened Packets
  import opened EndpointLifecycle
  import opened EndpointTransfers

  /** Bytes still to move, and one for the closing interrupt. */
  function Measure(e: Endpoint): int {
    if e.job.busy then |e.job.buf| - e.job.nbTrans + 1 else 0
  }

  /** Every interrupt of an IN job brings it closer to its end. */
  lemma SentDecreases(e: Endpoint)
    requires Faithful(e) && Armed(e) && e.dirIn
    ensures 0 <= Measure(Step(e, EvSent)) < Measure(e)
    ensures Step(e, EvSent).job.busy ==> Step(e, EvSent).ctrl.stall == e.ctrl.stall
  {
    MeasureDecreases(e);
    CompletionKeeps(HwSent(e));
  }

  lemma MeasureDecreases(e: Endpoint)
    requires WellSized(e) && e.dirIn && e.job.busy && InNext(e)
    ensures 0 <= Measure(TransComplet(HwSent(e))) < Measure(e)
  {
    InWindow(e);
    if e.job.nbTrans < |e.job.buf| {
      NextTransFits(|e.job.buf| - e.job.nbTrans, e.ctrl.size);
    }
    if e.job.nbTrans + e.ctrl.cnt < |e.job.buf| {
      InArmsNext(e);
    } else if e.job.nbTrans < |e.job.buf| && e.job.shortPacket {
      InArmsZlp(e);
    } else {
      InFinishes(e);
    }
  }

  /** The hardware cannot complete more transfers than the job has bytes, plus the closing one. */
  lemma {:induction false} SentBounded(e: Endpoint, n: nat)
    requires Faithful(e) && e.dirIn && Possible(e, Repeat(EvSent, n))
    ensures n <= Measure(e) || n == 0
    decreases n
  {
    hide InProgress, OutProgress, Ledger, RecordsOk, TransComplet;
    if n > 0 {
      assert Repeat(EvSent, n)[1..] == Repeat(EvSent, n - 1);
      StepWellSized(e, EvSent);
      SentDecreases(e);
      InStepFaithful(e);
      SentBounded(Step(e, EvSent), n - 1);
    }
  }

  /** From any point of an IN job, the transfers that remain end it with its record complete. */
  lemma {:induction false} InRunsToEnd(e: Endpoint) returns (n: nat)
    requires Faithful(e) && e.dirIn && RunBusy(e) && !e.ctrl.stall
    ensures Possible(e, Repeat(EvSent, n))
    ensures Faithful(Run(e, Repeat(EvSent, n))) && InRunEnds(e, Run(e, Repeat(EvSent, n)))
    decreases Measure(e)
  {
    hide Flatten, AllPackets, Packetize, WholePackets;
    var g := Step(e, EvSent);
    SentDecreases(e);
    InStepFaithful(e);
    InStepShape(e);
    var m := 0;
    if g.job.busy {
      m := InRunsToEnd(g);
      InRunJoins(e, g, Run(g, Repeat(EvSent, m)));
    }
    n := m + 1;
    RunCons(e, EvSent, Repeat(EvSent, m));
    assert Repeat(EvSent, n) == [EvSent] + Repeat(EvSent, m);
  }

  lemma InRunJoins(e: Endpoint, g: Endpoint, f: Endpoint)
    requires InStepKeeps(e, g) && InStepLogs(e, g) && g.job.busy && InRunEnds(g, f)
    ensures InRunEnds(e, f)
  {}

  /** The job is over, with its record complete, and its callback has heard of every byte. */
  ghost predicate InRunEnds(e: Endpoint, f: Endpoint) {
    && !f.job.busy && InDone(Ended(f, TransferOk))
    && f.hist.ended == e.hist.ended + [Ended(f, TransferOk)]
    && f.job.buf == e.job.buf && f.bus.wantShort == e.bus.wantShort && f.bus.size == e.ctrl.size
    && f.hist.calls == e.hist.calls
         + (if e.job.callback.NullPtr? then [] else [AsTrans(e.job.callback, TransferOk, |e.job.buf|)])
  }

  lemma InStepShape(e: Endpoint)
    requires Faithful(e) && e.dirIn && Armed(e)
    ensures InStepKeeps(e, Step(e, EvSent)) && InStepLogs(e, Step(e, EvSent))
  {
    InSendsAlways(e);
    InStepSame(e);
    if !Step(e, EvSent).job.busy {
      InStepEnds(e, Step(e, EvSent));
    }
  }

  lemma InStepEnds(e: Endpoint, f: Endpoint)
    requires InStepKeeps(e, f) && !f.job.busy && InDone(Ended(f, TransferOk))
    requires f.hist.calls == e.hist.calls + CompletionCall(f)
    requires f.hist.ended == e.hist.ended + [Ended(f, TransferOk)]
    ensures InRunEnds(e, f)
  {}

  /** A completion leaves the identity of the job alone. */
  predicate InStepKeeps(e: Endpoint, f: Endpoint) {
    && f.job.buf == e.job.buf && f.job.callback == e.job.callback && f.bus.wantShort == e.bus.wantShort
    && f.hist.waiting == e.hist.waiting && f.ctrl.size == e.ctrl.size
    && f.bus.size == e.bus.size == e.ctrl.size && (f.job.busy || f.job.nbTrans == |f.job.buf|)
  }

  /** It logs nothing, or the end of the job and one call. */
  ghost predicate InStepLogs(e: Endpoint, f: Endpoint) {
    if f.job.busy then f.hist.calls == e.hist.calls && f.hist.ended == e.hist.ended else InRunEnds(e, f)
  }

  lemma InStepSame(e: Endpoint)
    requires Faithful(e) && e.dirIn && Armed(e)
    ensures InStepKeeps(e, Step(e, EvSent))
  {}

  /** The IN transfer: from the call of udd_ep_run on an idle endpoint, the hardware transfers and
      their interrupts put exactly the buffer on the bus, as full packets and one short packet at
      most, a zero-length one exactly when it is asked for, or the buffer is empty, and the data
      ends on a packet boundary; then the callback is called once with the whole count. */
  lemma InTransfer(e: Endpoint, shortPacket: bool, buf: seq<byte>) returns (n: nat)
    requires Faithful(e) && e.dirIn && IsEnabled(e) && !e.ctrl.stall && !e.job.busy && |buf| < WORD
    ensures 0 < n <= |buf| + 1
    ensures var evs := [EvRun(shortPacket, buf, true)] + Repeat(EvSent, n);
      && Possible(e, evs)
      && var f := Run(e, evs);
      && !f.job.busy
      && Flatten(f.bus.sent) == buf
      && AllPackets(f.bus.sent, e.ctrl.size)
         == Packetize(buf, e.ctrl.size)
            + (if (shortPacket || |buf| == 0) && Rem(|buf|, e.ctrl.size) == 0 then [[]] else [])
      && GoodChunks(f.bus.sent, e.ctrl.size)
      && f.hist.calls == e.hist.calls + [AsTrans(TransFn(|e.hist.accepted|), TransferOk, |buf|)]
  {
    hide Flatten, AllPackets, Packetize, WholePackets;
    var ev := EvRun(shortPacket, buf, true);
    var g := Step(e, ev);
    RunStepFaithful(e, shortPacket, buf, true);
    InStarts(e, shortPacket, buf, true);
    InRunShape(e, shortPacket, buf);
    n := InRunsToEnd(g);
    SentBounded(g, n);
    var evs := [ev] + Repeat(EvSent, n);
    assert evs[1..] == Repeat(EvSent, n);
    StepWellSized(e, ev);
    assert Run(e, evs) == Run(g, Repeat(EvSent, n));
  }

  lemma InRunShape(e: Endpoint, shortPacket: bool, buf: seq<byte>)
    requires WellSized(e) && e.dirIn && RunAccepted(e, buf) && |buf| < WORD
    ensures var g := RunJob(e, shortPacket, buf, true);
      && g.job.busy && !g.hist.waiting && g.ctrl.stall == e.ctrl.stall
      && g.job.buf == buf && g.job.nbTrans == 0 && g.job.callback == TransFn(|e.hist.accepted|)
      && g.bus.wantShort == (shortPacket || |buf| == 0) && g.ctrl.size == e.ctrl.size
      && g.hist.calls == e.hist.calls
  {
  }

  // ----- OUT: the host sends, and nothing else happens

  ghost predicate OnlyReceptions(evs: seq<Event>) {
    forall i :: 0 <= i < |evs| ==> evs[i].EvReceived?
  }

  /** The driver's count and the buffer agree with what the host has sent. */
  ghost predicate OutCounts(e: Endpoint) {
    && e.job.nbTrans == Min(|e.bus.got|, |e.job.buf|)
    && e.job.buf[..e.job.nbTrans] == e.bus.got[..e.job.nbTrans]
  }

  lemma {:induction false} ReceptionsCount(e: Endpoint, evs: seq<Event>)
    requires Faithful(e) && !e.dirIn && Possible(e, evs) && OnlyReceptions(evs)
    requires OutCounts(e)
    ensures OutCounts(Run(e, evs))
    decreases |evs|
  {
    if |evs| > 0 {
      var data := evs[0].data;
      assert Armed(e) && RunBusy(e);
      OutReceivesAlways(e, data);
      StepFaithful(e, evs[0]);
      var f := Step(e, evs[0]);
      assert OutCounts(f) by {
        assert f == TransComplet(HwReceived(e, data));
      }
      assert OnlyReceptions(evs[1..]);
      ReceptionsCount(f, evs[1..]);
    }
  }

  /** A host that always sends all it is asked for brings a buffer with a partial last packet to
      the point where that packet is received into the cache. */
  lemma {:induction false} FillUp(e: Endpoint) returns (evs: seq<Event>)
    requires WellSized(e) && !e.dirIn && e.job.busy && OutProgress(e) && Armed(e)
    requires Rem(|e.job.buf|, e.ctrl.size) != 0
    ensures OnlyReceptions(evs) && Possible(e, evs)
    ensures var f := Run(e, evs);
      && WellSized(f) && !f.dirIn && f.job.busy && OutProgress(f) && Armed(f) && f.ctrl.dataPtr.CacheBuffer?
      && |f.job.buf| == |e.job.buf| && f.ctrl.size == e.ctrl.size
    decreases |e.job.buf| - e.job.nbTrans
  {
    if e.ctrl.dataPtr.CacheBuffer? {
      evs := [];
    } else {
      var ev := EvReceived(Repeat(0, e.ctrl.aux));
      FillStep(e, ev.data);
      var rest := FillUp(Step(e, ev));
      evs := [ev] + rest;
      assert evs[1..] == rest;
    }
  }

  lemma FillStep(e: Endpoint, data: seq<byte>)
    requires WellSized(e) && !e.dirIn && e.job.busy && OutProgress(e) && Armed(e)
    requires Rem(|e.job.buf|, e.ctrl.size) != 0 && e.ctrl.dataPtr.UserBuffer? && |data| == e.ctrl.aux
    ensures var f := TransComplet(HwReceived(e, data));
      && WellSized(f) && !f.dirIn && f.job.busy && OutProgress(f) && Armed(f)
      && f.ctrl.size == e.ctrl.size && |f.job.buf| == |e.job.buf| && e.job.nbTrans < f.job.nbTrans
  {
    RemAdd(e.job.nbTrans, e.ctrl.aux, e.ctrl.size);
    OutToBufferMore(e, data);
    OutArmsNext(e, data);
    CompletionKeeps(HwReceived(e, data));
  }

  /** If the count wraps there, a full last packet is taken for the start of a new buffer. */
  lemma LastPacketWraps(e: Endpoint, data: seq<byte>)
    requires WellSized(e) && !e.dirIn && e.job.busy && OutProgress(e) && e.ctrl.dataPtr.CacheBuffer?
    requires |data| == e.ctrl.size && !NoWrap(|e.job.buf|, e.ctrl.size)
    ensures var f := TransComplet(HwReceived(e, data));
      f.job.busy && f.job.nbTrans < e.ctrl.size && !OutCounts(f)
  {
    var n, k, s, h := |e.job.buf|, e.job.nbTrans, e.ctrl.size, HwReceived(e, data);
    var f := TransComplet(h);
    assert k + s >= WORD;
    assert (k + s) % WORD == k + s - WORD < s;
    assert f.bus.got == e.bus.got + data && |f.bus.got| == k + s;
    assert f.job.nbTrans == k + s - WORD;
  }

  /** The OUT transfer keeps count for every host exactly when the buffer is a whole number of packets,
      as that of an isochronous endpoint always is, or rounds up below 64 KiB. */
  lemma OutCountsIff(e: Endpoint, shortPacket: bool, buf: seq<byte>)
    requires Faithful(e) && !e.dirIn && RunAccepted(e, buf) && |buf| < WORD
    ensures NoWrap(|buf|, e.ctrl.size)
       <==> (forall evs :: OnlyReceptions(evs) && Possible(RunJob(e, shortPacket, buf, true), evs)
               ==> OutCounts(Run(RunJob(e, shortPacket, buf, true), evs)))
  {
    var g := RunJob(e, shortPacket, buf, true);
    StepWellSized(e, EvRun(shortPacket, buf, true));
    OutStarts(e, shortPacket, buf, true);
    if NoWrap(|buf|, e.ctrl.size) {
      RunStepFaithful(e, shortPacket, buf, true);
      forall evs | OnlyReceptions(evs) && Possible(g, evs) ensures OutCounts(Run(g, evs)) {
        ReceptionsCount(g, evs);
      }
    } else {
      var evs := WrappingHost(g);
      assert !OutCounts(Run(g, evs));
    }
  }

  /** A host that makes the count wrap. */
  lemma WrappingHost(g: Endpoint) returns (evs: seq<Event>)
    requires WellSized(g) && !g.dirIn && g.job.busy && OutProgress(g) && Armed(g)
    requires !NoWrap(|g.job.buf|, g.ctrl.size)
    ensures OnlyReceptions(evs) && Possible(g, evs) && !OutCounts(Run(g, evs))
  {
    var fill := FillUp(g);
    var f := Run(g, fill);
    var last := EvReceived(Repeat(0, f.ctrl.size));
    LastPacketWraps(f, last.data);
    StepWellSized(f, last);
    RunAppend(g, fill, last);
    evs := fill + [last];
  }

  lemma {:induction false} RunAppend(e: Endpoint, evs: seq<Event>, ev: Event)
    requires WellSized(e) && Possible(e, evs)
    requires WellSized(Run(e, evs)) && Occurs(Run(e, evs), ev) && WellSized(Step(Run(e, evs), ev))
    ensures Possible(e, evs + [ev]) && Run(e, evs + [ev]) == Step(Run(e, evs), ev)
    decreases |evs|
  {
    if |evs| == 0 {
      assert (evs + [ev])[1..] == [];
    } else {
      assert (evs + [ev])[1..] == evs[1..] + [ev];
      RunAppend(Step(e, evs[0]), evs[1..], ev);
    }
  }
}
