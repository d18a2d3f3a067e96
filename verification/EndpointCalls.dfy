/** What the calls of the driver mean to their callers: which endpoint is enabled or halted after any
    sequence of them, which jobs are taken, and who hears of the end of a halt. */
module EndpointCalls {
  import opened Arithmetic
  import opened EndpointSteps
  import opened EndpointLifecycle
  import opened Packets

  // ----- enabled and halted

  /** What the core and the host have asked of an endpoint. */
  datatype Conf = Off(halted: bool) | On(epType: EpType, size: nat, halted: bool)

  /** The last allocation or release decides, and then the last request about the halt. */
  function Asked(k: Conf, ev: Event): Conf {
    match ev
    case EvAlloc(epType, maxSize) => if k.On? then k else On(epType, EpSize(maxSize), false)
    case EvFree => Off(false)
    case EvSetHalt => k.(halted := true)
    case EvClearHalt => k.(halted := false)
    case _ => k
  }

  function AskedAll(k: Conf, evs: seq<Event>): Conf
    decreases |evs|
  {
    if |evs| == 0 then k else AskedAll(Asked(k, evs[0]), evs[1..])
  }

  /** What the control register of the endpoint says. */
  function Configured(e: Endpoint): Conf {
    if IsEnabled(e) then On(e.ctrl.epType, e.ctrl.size, e.ctrl.stall) else Off(e.ctrl.stall)
  }

  /** Only the four calls change that, whatever jobs are in progress. */
  lemma StepConfigures(e: Endpoint, ev: Event)
    requires WellSized(e) && Occurs(e, ev)
    ensures Configured(Step(e, ev)) == Asked(Configured(e), ev)
  {
    match ev
    case EvRun(shortPacket, buf, hasCallback) => CompletionKeeps(Registered(e, shortPacket, buf, hasCallback));
    case EvSent => CompletionKeeps(HwSent(e));
    case EvReceived(data) => CompletionKeeps(HwReceived(e, data));
    case _ =>
  }

  /** Over every run the endpoint is enabled and halted exactly as it was asked for last. */
  lemma {:induction false} RunConfigures(e: Endpoint, evs: seq<Event>)
    requires WellSized(e) && Possible(e, evs)
    ensures Configured(Run(e, evs)) == AskedAll(Configured(e), evs)
    decreases |evs|
  {
    if |evs| > 0 {
      StepConfigures(e, evs[0]);
      StepWellSized(e, evs[0]);
      RunConfigures(Step(e, evs[0]), evs[1..]);
    }
  }

  /** After udd_enable it is off and idle, and has done nothing. */
  lemma StartsIdle(dirIn: bool)
    ensures var e := Initial(dirIn);
      && e.dirIn == dirIn && Configured(e) == Off(false) && e.ctrl.nack0 && !e.job.busy
      && e.hist == History([], [], [], 0, false) && e.bus.sent == [] && e.bus.got == []
  {}

  /** A size the hardware knows is taken as it is. */
  lemma SizesKept(n: nat)
    ensures n in {8, 16, 32, 64, 128, 256, 512, 1023} ==> EpSize(n) == n
    ensures n !in {8, 16, 32, 64, 128, 256, 512, 1023} ==> EpSize(n) == 8
  {}

  /** A fresh endpoint answers NAK and sends several packets in one transfer, unless a packet is as long
      as a transfer can be. */
  lemma AllocArms(e: Endpoint, epType: EpType, maxSize: nat)
    requires !epType.Disabled?
    ensures var f := Alloc(e, epType, maxSize);
      if IsEnabled(e) then f == e
      else
        && f.ctrl.nack0 && (f.ctrl.multipacket <==> !(epType.Isochronous? && maxSize == 1023))
        && f == e.(ctrl := f.ctrl) && f.ctrl.cnt == e.ctrl.cnt && f.ctrl.aux == e.ctrl.aux
  {}

  /** A released endpoint has a cleared control register and no job. */
  lemma FreeClears(e: Endpoint)
    ensures var f := Free(e);
      && !f.job.busy && f.cache == e.cache && f.bus == e.bus && f.dirIn == e.dirIn
      && f.ctrl == e.ctrl.(epType := Disabled, size := 8, stall := false, multipacket := false, nack0 := true)
      && f.hist == Abort(e).hist && f.job == Abort(e).job
  {}

  /** A halt ends the job in progress, and the end of the halt lifts the stall, with or without a wait;
      without one nothing else happens. */
  lemma HaltEnds(e: Endpoint)
    ensures SetHalt(e).ctrl.stall && !SetHalt(e).job.busy && SetHalt(e).ctrl.nack0
    ensures !ClearHalt(e).ctrl.stall
    ensures !e.job.busy ==> ClearHalt(e) == e.(ctrl := e.ctrl.(stall := false))
    ensures !e.ctrl.stall ==> ClearHalt(e) == e
    ensures !e.job.busy ==> SetHalt(e) == e.(ctrl := e.ctrl.(stall := true, nack0 := true))
    ensures !e.job.busy ==> Abort(e) == e.(ctrl := e.ctrl.(nack0 := true))
  {}

  // ----- jobs

  /** A job is taken exactly on an enabled endpoint without another job, which is not halted unless it
      is isochronous, and into whole packets if it is isochronous OUT; a refused one changes nothing
      that the hardware, the callbacks or a job in progress depend on. */
  lemma TakenIff(e: Endpoint, shortPacket: bool, buf: seq<byte>, hasCallback: bool)
    requires WellSized(e)
    ensures var f := RunJob(e, shortPacket, buf, hasCallback);
      var iso := e.ctrl.epType.Isochronous?;
      var takes := && !e.ctrl.epType.Disabled? && !e.job.busy && (!e.ctrl.stall || iso)
                   && (iso && !e.dirIn ==> |buf| % e.ctrl.size == 0);
      && f.hist.accepted == (if takes then e.hist.accepted + [hasCallback] else e.hist.accepted)
      && (!takes ==>
            && f.ctrl == e.ctrl && f.job.busy == e.job.busy && (e.job.busy ==> f == e)
            && f.hist.calls == e.hist.calls && f.hist.ended == e.hist.ended)
      && (!takes && (!iso || e.dirIn || |buf| % e.ctrl.size == 0) ==> f == e)
      && (iso && !e.dirIn && !e.job.busy && |buf| % e.ctrl.size != 0 ==> f.job.buf == buf && f.job.nbTrans == 0)
  {
    RemIsMod(|buf|, e.ctrl.size);
    if RunAccepted(e, buf) {
      AcceptedKept(Registered(e, shortPacket, buf, hasCallback));
    }
  }

  lemma AcceptedKept(e: Endpoint)
    requires WellSized(e)
    ensures TransComplet(e).hist.accepted == e.hist.accepted
  {}

  /** Of the rest of a buffer a hardware transfer takes all, or as many whole packets as fit 1023 bytes. */
  lemma LargestTransfer(left: nat, size: nat)
    requires 8 <= size <= 1023
    ensures left <= 1023 ==> NextTrans(left, size) == left
    ensures left > 1023 ==> NextTrans(left, size) % size == 0 && 1023 < NextTrans(left, size) + size <= 1023 + size
  {
    RemCut(MAX_TRANS, size);
    RemIsMod(MAX_TRANS - Rem(MAX_TRANS, size), size);
  }

  /** When an OUT transfer into the cache is complete, the tail of the buffer is copied from it if it fits. */
  lemma CacheEmptied(e: Endpoint)
    requires WellSized(e) && e.job.useCache
    ensures var m := |e.job.buf| % e.ctrl.size; var f := OutCounted(e);
      f.job.buf == if m <= 64 then FromCache(e.job.buf, e.job.nbTrans, e.cache, m) else e.job.buf
  {
    RemIsMod(|e.job.buf|, e.ctrl.size);
  }

  // ----- the end of a halt

  /** Who waits for the end of a halt hears of it when it ends, and at once if there is none. */
  lemma WaitHears(e: Endpoint)
    ensures var w := WaitStallClear(e, true); var heard := [AsNoHalt(NoHaltFn(e.hist.registrations))];
      if !e.ctrl.stall then w.hist.calls == e.hist.calls + heard && w.job == e.job && w.ctrl == e.ctrl
      else if e.job.busy then w == e
      else
        && w.hist.calls == e.hist.calls && w.job.busy && w.ctrl == e.ctrl
        && ClearHalt(w).hist.calls == e.hist.calls + heard && !ClearHalt(w).job.busy
  {}
}
