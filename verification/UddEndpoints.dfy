/** The endpoints as the driver keeps them (usb_device.c): the entry of an endpoint in
    udd_sram.ep_ctrl, its job and its OUT cache buffer, updated in place by the udd_ep_* routines
    and by the interrupts.  Every routine is the step of module EndpointSteps. */
module UddEndpoints {
  import opened Arithmetic
  import opened EndpointSteps
  import opened Packets
  import opened EndpointLifecycle
  import opened EndpointTransfers

  /** The endpoint is faithful, the event can occur, and the callers do what is expected of them; then
      the endpoint stays faithful. */
  ghost predicate Fair(e: Endpoint, ev: Event) {
    Faithful(e) && Occurs(e, ev) && SaneData(e, ev)
  }

  lemma FairStep(e: Endpoint, ev: Event)
    ensures Fair(e, ev) ==> WellSized(e) && Faithful(Step(e, ev))
  {
    if Fair(e, ev) {
      StepFaithful(e, ev);
    }
  }

  class UddEndpoint {
    const dirIn: bool
    var ctrl: EpCtrl
    var job: Job
    var cache: seq<byte>
    /** What has happened, kept for the specification. */
    var hist: History
    var bus: Bus

    function View(): Endpoint
      reads this
    {
      Endpoint(dirIn, ctrl, job, cache, hist, bus)
    }

    /** Jobs and callbacks agree, the job in progress is on its way, and every job that has ended has
        moved the bytes it should. */
    ghost predicate Valid()
      reads this
    {
      Faithful(View())
    }

    /** The endpoint after udd_enable. */
    constructor (dirIn: bool)
      ensures Valid() && View() == Initial(dirIn)
    {
      this.dirIn := dirIn;
      ctrl, job := Initial(dirIn).ctrl, Initial(dirIn).job;
      cache, hist, bus := Initial(dirIn).cache, Initial(dirIn).hist, Initial(dirIn).bus;
      new;
      InitialFaithful(dirIn);
    }

    /** The end of a job, and the call of its callback unless that is NULL. */
    method EndJob(status: Status, n: nat)
      modifies this`job, this`hist
      ensures View() == Finish(old(View()), status, n)
    {
      if !job.busy {
        return;
      }
      job := job.(busy := false);
      hist := hist.(ended := hist.ended + [Record(status, job.buf, job.nbTrans, bus)]);
      if !job.callback.NullPtr? {
        hist := hist.(calls := hist.calls + [AsTrans(job.callback, status, n)]);
      }
    }

    /** udd_ep_alloc. */
    method Alloc(epType: EpType, maxSize: nat) returns (ok: bool)
      modifies this
      ensures View() == EndpointSteps.Alloc(old(View()), epType, maxSize)
      ensures old(Fair(View(), EvAlloc(epType, maxSize))) ==> Valid()
      ensures ok <==> !IsEnabled(old(View()))
    {
      FairStep(View(), EvAlloc(epType, maxSize));
      if !ctrl.epType.Disabled? {
        return false;
      }
      var size := EpSize(maxSize);
      ctrl := ctrl.(nack0 := true);
      ctrl := ctrl.(epType := epType, size := size, stall := false, multipacket := false);
      if ctrl.epType == Isochronous && ctrl.size == 1023 {
        return true;
      }
      ctrl := ctrl.(multipacket := true);
      ok := true;
    }

    /** udd_ep_abort. */
    method Abort()
      modifies this
      ensures View() == EndpointSteps.Abort(old(View()))
      ensures old(Fair(View(), EvAbort)) ==> Valid()
    {
      FairStep(View(), EvAbort);
      ctrl := ctrl.(nack0 := true);
      EndJob(TransferAbort, if dirIn then ctrl.aux else ctrl.cnt);
    }

    /** udd_ep_free. */
    method Free()
      modifies this
      ensures View() == EndpointSteps.Free(old(View()))
      ensures old(Fair(View(), EvFree)) ==> Valid()
    {
      FairStep(View(), EvFree);
      Abort();
      ctrl := ctrl.(epType := Disabled, size := 8, stall := false, multipacket := false);
    }

    /** udd_ep_set_halt. */
    method SetHalt() returns (ok: bool)
      modifies this
      ensures ok && View() == EndpointSteps.SetHalt(old(View()))
      ensures ctrl.stall && !job.busy
      ensures old(Fair(View(), EvSetHalt)) ==> Valid()
    {
      FairStep(View(), EvSetHalt);
      ctrl := ctrl.(stall := true);
      Abort();
      ok := true;
    }

    /** udd_ep_clear_halt. */
    method ClearHalt() returns (ok: bool)
      modifies this
      ensures ok && View() == EndpointSteps.ClearHalt(old(View()))
      ensures !ctrl.stall && (!old(job).busy ==> View() == old(View()).(ctrl := old(ctrl).(stall := false)))
      ensures old(Fair(View(), EvClearHalt)) ==> Valid()
    {
      FairStep(View(), EvClearHalt);
      ok := true;
      if !ctrl.stall {
        return;
      }
      ctrl := ctrl.(stall := false);
      if job.busy {
        job := job.(busy := false);
        hist := hist.(calls := hist.calls + [AsNoHalt(job.callback)]);
      }
    }

    /** udd_ep_wait_stall_clear. */
    method WaitStallClear(hasCallback: bool) returns (ok: bool)
      modifies this
      ensures View() == EndpointSteps.WaitStallClear(old(View()), hasCallback)
      ensures old(Fair(View(), EvWaitStallClear(hasCallback))) ==> Valid()
      ensures ok <==> !(old(ctrl).stall && old(job).busy)
    {
      FairStep(View(), EvWaitStallClear(hasCallback));
      var fn := if hasCallback then NoHaltFn(hist.registrations) else NullPtr;
      if ctrl.stall {
        if job.busy {
          return false;
        }
        job := job.(busy := true);
        job := job.(callback := fn);
        hist := hist.(waiting := true);
      } else {
        hist := hist.(calls := hist.calls + [AsNoHalt(fn)]);
      }
      hist := hist.(registrations := hist.registrations + 1);
      ok := true;
    }

    /** udd_ep_run. */
    method Run(shortPacket: bool, buf: seq<byte>, hasCallback: bool) returns (ok: bool)
      requires WellSized(View()) && |buf| < WORD
      modifies this
      ensures View() == RunJob(old(View()), shortPacket, buf, hasCallback)
      ensures old(Fair(View(), EvRun(shortPacket, buf, hasCallback))) ==> Valid()
      ensures ok <==> RunAccepted(old(View()), buf)
    {
      FairStep(View(), EvRun(shortPacket, buf, hasCallback));
      if ctrl.epType.Disabled? {
        return false;
      }
      if !ctrl.epType.Isochronous? && ctrl.stall {
        return false;
      }
      if job.busy {
        return false;
      }
      ok := Take(shortPacket, buf, hasCallback);
    }

    /** The part of udd_ep_run after its first checks. */
    method Take(shortPacket: bool, buf: seq<byte>, hasCallback: bool) returns (ok: bool)
      requires WellSized(View()) && IsEnabled(View()) && !job.busy
      requires !ctrl.epType.Isochronous? ==> !ctrl.stall
      modifies this
      ensures View() == RunJob(old(View()), shortPacket, buf, hasCallback)
      ensures ok <==> RunAccepted(old(View()), buf)
    {
      ok := Start(shortPacket, buf, hasCallback);
      if ok {
        TransComplet();
      }
    }

    /** The job is registered, unless it is refused after that. */
    method Start(shortPacket: bool, buf: seq<byte>, hasCallback: bool) returns (ok: bool)
      requires WellSized(View()) && IsEnabled(View()) && !job.busy
      modifies this
      ensures ok <==> !RunSpoilsJob(old(View()), buf)
      ensures View() == if ok then Registered(old(View()), shortPacket, buf, hasCallback)
                        else Spoiled(old(View()), shortPacket, buf, hasCallback)
    {
      Register(shortPacket, buf, hasCallback);
      if dirIn {
        ctrl := ctrl.(aux := 0);
      } else {
        if ctrl.epType.Isochronous? && Rem(|buf|, ctrl.size) != 0 {
          job := job.(busy := false);
          return false;
        }
        ctrl := ctrl.(cnt := 0, aux := 0);
      }
      hist := hist.(accepted := hist.accepted + [hasCallback]);
      ok := true;
    }

    /** The fields of a new job. */
    method Register(shortPacket: bool, buf: seq<byte>, hasCallback: bool)
      modifies this`job, this`hist, this`bus
      ensures var want := shortPacket || |buf| == 0;
        && job == Job(true, want, false, buf, 0, if hasCallback then TransFn(|hist.accepted|) else NullPtr)
        && hist == old(hist).(waiting := false) && bus == Bus([], [], want, ctrl.size)
    {
      job := job.(busy := true);
      job := job.(buf := buf, nbTrans := 0);
      job := job.(callback := if hasCallback then TransFn(|hist.accepted|) else NullPtr);
      job := job.(shortPacket := shortPacket || |buf| == 0, useCache := false);
      hist := hist.(waiting := false);
      bus := Bus([], [], job.shortPacket, ctrl.size);
    }

    /** udd_ep_trans_complet. */
    method TransComplet()
      requires WellSized(View())
      modifies this
      ensures View() == EndpointSteps.TransComplet(old(View()))
    {
      if dirIn {
        CompleteIn();
      } else {
        CompleteOut();
      }
    }

    method CompleteIn()
      requires WellSized(View()) && dirIn
      modifies this
      ensures View() == InComplete(old(View()))
    {
      job := job.(nbTrans := (job.nbTrans + ctrl.aux) % WORD);
      if job.nbTrans != |job.buf| {
        var next := (|job.buf| - job.nbTrans) % WORD;
        if MAX_TRANS < next {
          next := MAX_TRANS - Rem(MAX_TRANS, ctrl.size);
        }
        job := job.(shortPacket := job.shortPacket && Rem(next, ctrl.size) == 0);
        ctrl := ctrl.(aux := 0);
        ctrl := ctrl.(cnt := next);
        ctrl := ctrl.(dataPtr := UserBuffer(job.nbTrans));
        ctrl := ctrl.(nack0 := false);
        return;
      }
      if job.shortPacket {
        job := job.(shortPacket := false);
        ctrl := ctrl.(aux := 0, cnt := 0);
        ctrl := ctrl.(nack0 := false);
        return;
      }
      EndJob(TransferOk, job.nbTrans);
    }

    /** The request for the next OUT transfer. */
    method ArmOut()
      requires WellSized(View()) && job.nbTrans < |job.buf|
      modifies this
      ensures View() == OutArm(old(View()))
    {
      var next := |job.buf| - job.nbTrans;
      if MAX_TRANS < next {
        next := MAX_TRANS - Rem(MAX_TRANS, ctrl.size);
        RemCut(MAX_TRANS, ctrl.size);
      } else {
        next := next - Rem(next, ctrl.size);
      }
      ctrl := ctrl.(cnt := 0);
      if next < ctrl.size {
        job := job.(useCache := true);
        ctrl := ctrl.(dataPtr := CacheBuffer);
        ctrl := ctrl.(aux := ctrl.size);
      } else {
        ctrl := ctrl.(dataPtr := UserBuffer(job.nbTrans));
        ctrl := ctrl.(aux := next);
      }
      ctrl := ctrl.(nack0 := false);
    }

    /** The part of it that stores and counts what has been received. */
    method CountOut()
      requires WellSized(View())
      modifies this`job
      ensures View() == OutCounted(old(View()))
    {
      if job.useCache {
        var n := Rem(|job.buf|, ctrl.size);
        if n <= CACHE_SIZE {
          job := job.(buf := FromCache(job.buf, job.nbTrans, cache, n));
        }
      }
      job := job.(nbTrans := (job.nbTrans + ctrl.cnt) % WORD);
      if job.nbTrans > |job.buf| {
        job := job.(nbTrans := |job.buf|);
      }
    }

    method CompleteOut()
      requires WellSized(View()) && !dirIn
      modifies this
      ensures View() == OutComplete(old(View()))
    {
      CountOut();
      if ctrl.cnt == ctrl.aux && job.nbTrans != |job.buf| {
        ArmOut();
        return;
      }
      EndJob(TransferOk, job.nbTrans);
    }

    /** The hardware has sent the armed transfer; USB_TRNCOMPL_vect. */
    method Sent()
      requires WellSized(View()) && Armed(View()) && dirIn
      modifies this
      ensures View() == Step(old(View()), EvSent)
      ensures old(Fair(View(), EvSent)) ==> Valid()
    {
      FairStep(View(), EvSent);
      bus := bus.(sent := bus.sent + [Window(View())]);
      ctrl := ctrl.(aux := ctrl.cnt, nack0 := true);
      TransComplet();
    }

    /** The hardware has received data into the armed window; USB_TRNCOMPL_vect. */
    method Received(data: seq<byte>)
      requires WellSized(View()) && Armed(View()) && !dirIn && |data| <= ctrl.aux
      modifies this
      ensures View() == Step(old(View()), EvReceived(data))
      ensures old(Fair(View(), EvReceived(data))) ==> Valid()
    {
      FairStep(View(), EvReceived(data));
      if ctrl.dataPtr.CacheBuffer? {
        cache := Splice(cache, 0, data);
      } else {
        job := job.(buf := Splice(job.buf, ctrl.dataPtr.offset, data));
      }
      ctrl := ctrl.(cnt := |data|, nack0 := true);
      bus := bus.(got := bus.got + data);
      TransComplet();
    }
  }

  const DIR_IN: nat := 0x80
  const ADDR_MASK: nat := 0x0F

  /** The place of an endpoint in udd_sram.ep_ctrl and, less two, in udd_ep_job: OUT and IN
      alternate, and the job table has no entries for the control endpoints. */
  function CtrlIndex(ep: nat): nat {
    2 * (ep % (ADDR_MASK + 1)) + (if ep >= DIR_IN then 1 else 0)
  }

  /** An endpoint number with its direction bit; number 0 is the control endpoint. */
  predicate IsEpId(ep: nat, maxEp: nat) {
    1 <= ep <= maxEp || DIR_IN + 1 <= ep <= DIR_IN + maxEp
  }

  /** The endpoint an entry belongs to. */
  function EpAt(index: nat): nat {
    index / 2 + (if index % 2 == 1 then DIR_IN else 0)
  }

  /** Every endpoint has an entry of its own, and every entry belongs to an endpoint. */
  lemma IndexIsBijective(maxEp: nat)
    requires maxEp <= ADDR_MASK
    ensures forall ep: nat :: IsEpId(ep, maxEp) ==> 2 <= CtrlIndex(ep) < 2 * (maxEp + 1) && EpAt(CtrlIndex(ep)) == ep
    ensures forall k: nat :: 2 <= k < 2 * (maxEp + 1) ==> IsEpId(EpAt(k), maxEp) && CtrlIndex(EpAt(k)) == k
  {}

  /** The tables of the driver. */
  class Udd {
    const maxEp: nat
    const table: seq<UddEndpoint>

    ghost predicate Valid() {
      && maxEp <= ADDR_MASK && |table| == 2 * maxEp
      && (forall i, j :: 0 <= i < j < |table| ==> table[i] != table[j])
      && (forall ep: nat :: IsEpId(ep, maxEp) ==> table[CtrlIndex(ep) - 2].dirIn == (ep >= DIR_IN))
    }

    constructor (maxEp: nat, table: seq<UddEndpoint>)
      requires maxEp <= ADDR_MASK && |table| == 2 * maxEp
      requires forall i, j :: 0 <= i < j < |table| ==> table[i] != table[j]
      requires forall ep: nat :: IsEpId(ep, maxEp) ==> table[CtrlIndex(ep) - 2].dirIn == (ep >= DIR_IN)
      ensures Valid() && this.maxEp == maxEp && this.table == table
    {
      this.maxEp, this.table := maxEp, table;
    }

    /** udd_ep_get_ctrl and udd_ep_get_job. */
    function Get(ep: nat): UddEndpoint
      requires Valid() && IsEpId(ep, maxEp)
    {
      table[CtrlIndex(ep) - 2]
    }

    /** The abort of every endpoint job on a bus reset. */
    method AbortAll()
      requires Valid()
      modifies table
      ensures forall k :: 0 <= k < |table| ==> table[k].View() == EndpointSteps.Abort(old(table[k].View()))
    {
      var i := 1;
      while i <= maxEp
        invariant 1 <= i <= maxEp + 1
        invariant forall k :: 0 <= k < 2 * (i - 1) ==> table[k].View() == EndpointSteps.Abort(old(table[k].View()))
        invariant forall k :: 2 * (i - 1) <= k < |table| ==> table[k].View() == old(table[k].View())
      {
        AbortBoth(i);
        i := i + 1;
      }
    }

    /** The abort of both endpoints of a number. */
    method AbortBoth(i: nat)
      requires Valid() && 1 <= i <= maxEp
      modifies table[2 * (i - 1)], table[2 * (i - 1) + 1]
      ensures var k := 2 * (i - 1);
        && table[k].View() == EndpointSteps.Abort(old(table[k].View()))
        && table[k + 1].View() == EndpointSteps.Abort(old(table[k + 1].View()))
    {
      AbortAt(2 * (i - 1), i);
      AbortAt(2 * (i - 1) + 1, i + DIR_IN);
    }

    /** The abort of one endpoint leaves the others alone. */
    method AbortAt(ghost k: nat, ep: nat)
      requires Valid() && k < |table| && IsEpId(ep, maxEp) && CtrlIndex(ep) == k + 2
      modifies table[k]
      ensures table[k].View() == EndpointSteps.Abort(old(table[k].View()))
    {
      Get(ep).Abort();
    }
  }
}
