/** One bulk, interrupt or isochronous endpoint of the USB device driver (usb_device.c): the
    hardware registers the driver uses, the job registered on the endpoint, and every step that can
    change them.  A step is an API call, or a hardware transfer followed by its interrupt. */
module EndpointSteps {
  import opened Arithmetic
  import opened Packets

  /** The largest hardware transfer, in bytes. */
  const MAX_TRANS: nat := 0x3FF
  /** The size of the cache that takes the last packet of an OUT job. */
  const CACHE_SIZE: nat := 64

  datatype EpType = Disabled | Control | Isochronous | Bulk

  /** Where the hardware reads or writes the data of a transfer. */
  datatype Dma = UserBuffer(offset: nat) | CacheBuffer

  /** CTRL, STATUS, CNT, AUXDATA and DATAPTR.  An IN endpoint counts down from cnt and leaves the
      number sent in aux; an OUT endpoint accepts aux bytes and leaves the number received in cnt. */
  datatype EpCtrl = EpCtrl(epType: EpType, size: nat, multipacket: bool, stall: bool,
                           nack0: bool, cnt: nat, aux: nat, dataPtr: Dma)

  /** The callback union of a job: the member is chosen by the call that registers the job. */
  datatype Callback = NullPtr | TransFn(job: nat) | NoHaltFn(registration: nat)

  datatype Status = TransferOk | TransferAbort

  /** A call through the union, by the member it is read as. */
  datatype Call = AsTrans(fn: Callback, status: Status, n: nat) | AsNoHalt(fn: Callback)

  datatype Job = Job(busy: bool, shortPacket: bool, useCache: bool, buf: seq<byte>, nbTrans: nat, callback: Callback)

  /** The bus during a job: the hardware transfers sent, the bytes received, whether a short packet
      must end it, and the endpoint size. */
  datatype Bus = Bus(sent: seq<seq<byte>>, got: seq<byte>, wantShort: bool, size: nat)

  /** How a job of udd_ep_run ended: its status, its buffer and count at that moment, and the bus. */
  datatype Record = Record(status: Status, buf: seq<byte>, nbTrans: nat, bus: Bus)

  /** What has happened so far: the jobs that have ended, the callback calls made, for every accepted
      job whether it had a callback, and the registrations for the end of a halt.  waiting says which
      member of the callback union was written last. */
  datatype History = History(ended: seq<Record>, calls: seq<Call>, accepted: seq<bool>,
                             registrations: nat, waiting: bool)

  /** An endpoint, with its history and the bus during its latest job. */
  datatype Endpoint = Endpoint(dirIn: bool, ctrl: EpCtrl, job: Job, cache: seq<byte>, hist: History, bus: Bus)

  // ----- the driver's routines

  predicate IsEnabled(e: Endpoint) { !e.ctrl.epType.Disabled? }

  function Min(a: int, b: int): int { if a < b then a else b }

  /** The next hardware transfer when left bytes remain: all of them, or as many full packets as
      the hardware can take. */
  function NextTrans(left: nat, size: nat): nat
    requires 0 < size
  {
    if MAX_TRANS < left then MAX_TRANS - Rem(MAX_TRANS, size) else left
  }

  function Called(e: Endpoint, call: Call): Endpoint {
    e.(hist := e.hist.(calls := e.hist.calls + [call]))
  }

  /** The job is over: it is no longer busy and its callback, if any, is called. */
  function Finish(e: Endpoint, status: Status, n: nat): Endpoint {
    if !e.job.busy then e
    else
      var record := Record(status, e.job.buf, e.job.nbTrans, e.bus);
      var e1 := e.(job := e.job.(busy := false), hist := e.hist.(ended := e.hist.ended + [record]));
      if e.job.callback.NullPtr? then e1 else Called(e1, AsTrans(e.job.callback, status, n))
  }

  /** udd_ep_trans_complet on an IN endpoint. */
  function InComplete(e: Endpoint): Endpoint
    requires 0 < e.ctrl.size
  {
    var nb := (e.job.nbTrans + e.ctrl.aux) % WORD;
    var e1 := e.(job := e.job.(nbTrans := nb));
    if nb != |e.job.buf| then
      var next := NextTrans((|e.job.buf| - nb) % WORD, e.ctrl.size);
      e1.(job := e1.job.(shortPacket := e.job.shortPacket && Rem(next, e.ctrl.size) == 0),
          ctrl := e.ctrl.(aux := 0, cnt := next, dataPtr := UserBuffer(nb), nack0 := false))
    else if e.job.shortPacket then
      e1.(job := e1.job.(shortPacket := false), ctrl := e.ctrl.(aux := 0, cnt := 0, nack0 := false))
    else
      Finish(e1, TransferOk, nb)
  }

  /** The copy out of the cache, at the end of what is already in the buffer. */
  function FromCache(buf: seq<byte>, at: nat, cache: seq<byte>, n: nat): (r: seq<byte>)
    requires n <= |cache|
    ensures |r| == |buf|
  {
    if at + n <= |buf| then buf[..at] + cache[..n] + buf[at + n..] else buf
  }

  /** Request the next OUT transfer: whole packets into the buffer, or one packet into the cache. */
  function OutArm(e: Endpoint): Endpoint
    requires 0 < e.ctrl.size && e.job.nbTrans <= |e.job.buf|
  {
    var left := NextTrans(|e.job.buf| - e.job.nbTrans, e.ctrl.size);
    var next := left - Rem(left, e.ctrl.size);
    if next < e.ctrl.size then
      e.(job := e.job.(useCache := true),
         ctrl := e.ctrl.(cnt := 0, dataPtr := CacheBuffer, aux := e.ctrl.size, nack0 := false))
    else
      e.(ctrl := e.ctrl.(cnt := 0, dataPtr := UserBuffer(e.job.nbTrans), aux := next, nack0 := false))
  }

  /** The bytes received are in the buffer, and counted. */
  function OutCounted(e: Endpoint): (f: Endpoint)
    requires 0 < e.ctrl.size && |e.cache| == CACHE_SIZE
    ensures f.job.nbTrans <= |f.job.buf| == |e.job.buf|
  {
    var n, size := |e.job.buf|, e.ctrl.size;
    var buf := if e.job.useCache && Rem(n, size) <= CACHE_SIZE
               then FromCache(e.job.buf, e.job.nbTrans, e.cache, Rem(n, size)) else e.job.buf;
    var sum := (e.job.nbTrans + e.ctrl.cnt) % WORD;
    e.(job := e.job.(buf := buf, nbTrans := if sum > n then n else sum))
  }

  /** udd_ep_trans_complet on an OUT endpoint. */
  function OutComplete(e: Endpoint): Endpoint
    requires 0 < e.ctrl.size && |e.cache| == CACHE_SIZE
  {
    var e1 := OutCounted(e);
    if e.ctrl.cnt == e.ctrl.aux && e1.job.nbTrans != |e.job.buf| then OutArm(e1)
    else Finish(e1, TransferOk, e1.job.nbTrans)
  }

  function TransComplet(e: Endpoint): Endpoint
    requires 0 < e.ctrl.size && |e.cache| == CACHE_SIZE
  {
    if e.dirIn then InComplete(e) else OutComplete(e)
  }

  /** udd_ep_run refuses a disabled, halted or busy endpoint, and an isochronous OUT buffer that is
      not a whole number of packets. */
  predicate RunAccepted(e: Endpoint, buf: seq<byte>)
    requires 0 < e.ctrl.size
  {
    && IsEnabled(e)
    && (e.ctrl.stall ==> e.ctrl.epType.Isochronous?)
    && !e.job.busy
    && (!e.dirIn && e.ctrl.epType.Isochronous? ==> Rem(|buf|, e.ctrl.size) == 0)
  }

  /** The job as udd_ep_run registers it, before the first transfer is requested. */
  function Registered(e: Endpoint, shortPacket: bool, buf: seq<byte>, hasCallback: bool): Endpoint {
    var id := |e.hist.accepted|;
    var want := shortPacket || |buf| == 0;
    e.(job := Job(true, want, false, buf, 0, if hasCallback then TransFn(id) else NullPtr),
       ctrl := if e.dirIn then e.ctrl.(aux := 0) else e.ctrl.(cnt := 0, aux := 0),
       hist := e.hist.(accepted := e.hist.accepted + [hasCallback], waiting := false),
       bus := Bus([], [], want, e.ctrl.size))
  }

  /** A refused isochronous OUT job has already overwritten the job's fields. */
  predicate RunSpoilsJob(e: Endpoint, buf: seq<byte>)
    requires 0 < e.ctrl.size
  {
    && IsEnabled(e) && !e.job.busy && !e.dirIn
    && e.ctrl.epType.Isochronous? && Rem(|buf|, e.ctrl.size) != 0
  }

  function Spoiled(e: Endpoint, shortPacket: bool, buf: seq<byte>, hasCallback: bool): Endpoint {
    var e1 := Registered(e, shortPacket, buf, hasCallback);
    e.(job := e1.job.(busy := false), hist := e.hist.(waiting := false), bus := e1.bus)
  }

  /** udd_ep_run. */
  function RunJob(e: Endpoint, shortPacket: bool, buf: seq<byte>, hasCallback: bool): Endpoint
    requires 0 < e.ctrl.size && |e.cache| == CACHE_SIZE
  {
    if RunAccepted(e, buf) then
      TransComplet(Registered(e, shortPacket, buf, hasCallback))
    else if RunSpoilsJob(e, buf) then Spoiled(e, shortPacket, buf, hasCallback)
    else e
  }

  /** udd_ep_abort: the callback is told the count of the current hardware transfer. */
  function Abort(e: Endpoint): Endpoint {
    Finish(e.(ctrl := e.ctrl.(nack0 := true)), TransferAbort, if e.dirIn then e.ctrl.aux else e.ctrl.cnt)
  }

  function SetHalt(e: Endpoint): Endpoint {
    Abort(e.(ctrl := e.ctrl.(stall := true)))
  }

  function ClearHalt(e: Endpoint): Endpoint {
    if !e.ctrl.stall then e
    else
      var e1 := e.(ctrl := e.ctrl.(stall := false));
      if e.job.busy then Called(e1.(job := e.job.(busy := false)), AsNoHalt(e.job.callback)) else e1
  }

  /** udd_ep_wait_stall_clear: a callback is called at once when the endpoint is not halted. */
  function WaitStallClear(e: Endpoint, hasCallback: bool): Endpoint {
    var id := e.hist.registrations;
    var fn := if hasCallback then NoHaltFn(id) else NullPtr;
    if e.ctrl.stall then
      if e.job.busy then e
      else e.(job := e.job.(busy := true, callback := fn),
              hist := e.hist.(waiting := true, registrations := id + 1))
    else Called(e.(hist := e.hist.(registrations := id + 1)), AsNoHalt(fn))
  }

  /** The endpoint sizes the hardware knows; any other value is taken as 8. */
  function EpSize(maxSize: nat): (r: nat)
    ensures 8 <= r <= 1023
  {
    if maxSize in {8, 16, 32, 64, 128, 256, 512, 1023} then maxSize else 8
  }

  /** udd_ep_alloc: CTRL is written whole, so a halt set on a disabled endpoint is gone. */
  function Alloc(e: Endpoint, epType: EpType, maxSize: nat): Endpoint {
    if IsEnabled(e) then e
    else
      var size := EpSize(maxSize);
      e.(ctrl := e.ctrl.(epType := epType, size := size, stall := false, nack0 := true,
                         multipacket := !(epType.Isochronous? && size == 1023)))
  }

  /** udd_ep_free. */
  function Free(e: Endpoint): Endpoint {
    var e1 := Abort(e);
    e1.(ctrl := e1.ctrl.(epType := Disabled, size := 8, stall := false, multipacket := false))
  }

  // ----- the hardware

  /** The hardware moves data only on an enabled endpoint that is armed and not halted. */
  predicate Armed(e: Endpoint) {
    IsEnabled(e) && !e.ctrl.nack0 && !e.ctrl.stall
  }

  /** The bytes of the armed IN transfer. */
  function Window(e: Endpoint): seq<byte> {
    if e.ctrl.cnt == 0 || e.ctrl.dataPtr.CacheBuffer? || e.ctrl.dataPtr.offset + e.ctrl.cnt > |e.job.buf| then []
    else e.job.buf[e.ctrl.dataPtr.offset..e.ctrl.dataPtr.offset + e.ctrl.cnt]
  }

  /** The hardware has sent the armed transfer. */
  function HwSent(e: Endpoint): Endpoint {
    e.(ctrl := e.ctrl.(aux := e.ctrl.cnt, nack0 := true),
       bus := e.bus.(sent := e.bus.sent + [Window(e)]))
  }

  function Splice(s: seq<byte>, at: nat, data: seq<byte>): (r: seq<byte>)
    ensures |r| == |s|
  {
    if at + |data| <= |s| then s[..at] + data + s[at + |data|..] else s
  }

  /** The hardware has received data into the armed window. */
  function HwReceived(e: Endpoint, data: seq<byte>): Endpoint {
    var e1 := e.(ctrl := e.ctrl.(cnt := |data|, nack0 := true), bus := e.bus.(got := e.bus.got + data));
    if e.ctrl.dataPtr.CacheBuffer? then e1.(cache := Splice(e.cache, 0, data))
    else e1.(job := e.job.(buf := Splice(e.job.buf, e.ctrl.dataPtr.offset, data)))
  }

  // ----- runs

  datatype Event =
    | EvAlloc(epType: EpType, maxSize: nat)
    | EvFree
    | EvSetHalt
    | EvClearHalt
    | EvRun(shortPacket: bool, buf: seq<byte>, hasCallback: bool)
    | EvAbort
    | EvWaitStallClear(hasCallback: bool)
    | EvSent
    | EvReceived(data: seq<byte>)

  /** Hardware events occur on armed endpoints only; an OUT endpoint receives at most what was
      requested. */
  predicate Occurs(e: Endpoint, ev: Event) {
    match ev
    case EvSent => Armed(e) && e.dirIn
    case EvReceived(data) => Armed(e) && !e.dirIn && |data| <= e.ctrl.aux
    case EvAlloc(epType, _) => !epType.Disabled?
    case EvRun(_, buf, _) => |buf| < WORD
    case _ => true
  }

  predicate WellSized(e: Endpoint) {
    8 <= e.ctrl.size <= 1023 && |e.cache| == CACHE_SIZE
  }

  function Step(e: Endpoint, ev: Event): Endpoint
    requires WellSized(e) && Occurs(e, ev)
  {
    match ev
    case EvAlloc(epType, maxSize) => Alloc(e, epType, maxSize)
    case EvFree => Free(e)
    case EvSetHalt => SetHalt(e)
    case EvClearHalt => ClearHalt(e)
    case EvRun(shortPacket, buf, hasCallback) => RunJob(e, shortPacket, buf, hasCallback)
    case EvAbort => Abort(e)
    case EvWaitStallClear(hasCallback) => WaitStallClear(e, hasCallback)
    case EvSent => TransComplet(HwSent(e))
    case EvReceived(data) => TransComplet(HwReceived(e, data))
  }

  /** A completion leaves the endpoint as it is configured. */
  lemma CompletionKeeps(e: Endpoint)
    requires WellSized(e)
    ensures var f := TransComplet(e);
      && f.dirIn == e.dirIn && f.ctrl.epType == e.ctrl.epType && f.ctrl.size == e.ctrl.size
      && f.ctrl.stall == e.ctrl.stall && |f.job.buf| == |e.job.buf| && f.cache == e.cache
  {}

  lemma StepWellSized(e: Endpoint, ev: Event)
    requires WellSized(e) && Occurs(e, ev)
    ensures WellSized(Step(e, ev)) && Step(e, ev).dirIn == e.dirIn
  {
    match ev
    case EvRun(shortPacket, buf, hasCallback) => CompletionKeeps(Registered(e, shortPacket, buf, hasCallback));
    case EvSent => CompletionKeeps(HwSent(e));
    case EvReceived(data) => CompletionKeeps(HwReceived(e, data));
    case _ =>
  }

  /** A run in which every event can occur. */
  ghost predicate Possible(e: Endpoint, evs: seq<Event>)
    requires WellSized(e)
    decreases |evs|
  {
    |evs| == 0 || (Occurs(e, evs[0]) && WellSized(Step(e, evs[0])) && Possible(Step(e, evs[0]), evs[1..]))
  }

  function Run(e: Endpoint, evs: seq<Event>): Endpoint
    requires WellSized(e) && Possible(e, evs)
    decreases |evs|
  {
    if |evs| == 0 then e else Run(Step(e, evs[0]), evs[1..])
  }

  lemma RunCons(e: Endpoint, ev: Event, evs: seq<Event>)
    requires WellSized(e) && Occurs(e, ev) && WellSized(Step(e, ev)) && Possible(Step(e, ev), evs)
    ensures Possible(e, [ev] + evs) && Run(e, [ev] + evs) == Run(Step(e, ev), evs)
  {
    assert ([ev] + evs)[1..] == evs;
  }

  /** An endpoint after udd_enable: disabled and idle. */
  function Initial(dirIn: bool): (e: Endpoint)
    ensures WellSized(e)
  {
    Endpoint(dirIn, EpCtrl(Disabled, 8, false, false, true, 0, 0, UserBuffer(0)),
             Job(false, false, false, [], 0, NullPtr), seq(CACHE_SIZE, _ => 0),
             History([], [], [], 0, false), Bus([], [], false, 8))
  }
}
