/** The bytes a job moves: an IN job puts exactly its buffer on the bus, packet by packet; an OUT
    job stores what the host sends, through the cache where the buffer is not a whole number of
    packets. */
module EndpointTransfers {
  import opened Arithmetic
  import opened EndpointSteps
  import opened EndpointLifecycle
  import opened Packets

  // ----- the bus as the host sees it

  /** The packets of one hardware transfer; an empty transfer is a zero-length packet. */
  function PacketsOf(chunk: seq<byte>, size: nat): seq<seq<byte>>
    requires 0 < size
  {
    if |chunk| == 0 then [[]] else Packetize(chunk, size)
  }

  function AllPackets(sent: seq<seq<byte>>, size: nat): seq<seq<byte>>
    requires 0 < size
  {
    if |sent| == 0 then [] else AllPackets(sent[..|sent| - 1], size) + PacketsOf(sent[|sent| - 1], size)
  }

  lemma SendOne(sent: seq<seq<byte>>, chunk: seq<byte>, size: nat)
    requires 0 < size
    ensures Flatten(sent + [chunk]) == Flatten(sent) + chunk
    ensures AllPackets(sent + [chunk], size) == AllPackets(sent, size) + PacketsOf(chunk, size)
  {
    assert (sent + [chunk])[..|sent|] == sent;
  }

  // ----- IN

  /** The packets a job must put on the bus: its buffer, closed by a zero-length packet if a short
      packet is wanted and the data does not end with one. */
  function Wanted(buf: seq<byte>, size: nat, wantShort: bool): seq<seq<byte>>
    requires 0 < size
  {
    Packetize(buf, size) + (if wantShort && Rem(|buf|, size) == 0 then [[]] else [])
  }

  /** Hardware transfers of a positive number of whole packets, at most 1023 bytes. */
  ghost predicate WholePackets(sent: seq<seq<byte>>, size: nat)
    requires 0 < size
  {
    forall i :: 0 <= i < |sent| ==> 0 < |sent[i]| <= MAX_TRANS && Rem(|sent[i]|, size) == 0
  }

  /** All hardware transfers but the last hold whole packets. */
  ghost predicate GoodChunks(sent: seq<seq<byte>>, size: nat)
    requires 0 < size
  {
    |sent| > 0 ==> WholePackets(sent[..|sent| - 1], size) && |sent[|sent| - 1]| <= MAX_TRANS
  }

  /** The first k bytes of the buffer are on the bus, in whole packets. */
  ghost predicate SentSoFar(buf: seq<byte>, sent: seq<seq<byte>>, k: nat, size: nat)
    requires 0 < size && k <= |buf|
  {
    && Flatten(sent) == buf[..k] && AllPackets(sent, size) == Packetize(buf[..k], size)
    && WholePackets(sent, size) && Rem(k, size) == 0
  }

  /** Another c bytes behind them, or a zero-length packet. */
  ghost predicate SentMore(buf: seq<byte>, sent: seq<seq<byte>>, k: nat, c: nat, size: nat)
    requires 0 < size && k + c <= |buf|
  {
    && Flatten(sent) == buf[..k + c]
    && AllPackets(sent, size) == Packetize(buf[..k + c], size) + (if c == 0 then [[]] else [])
    && Rem(k + c, size) == Rem(c, size) && GoodChunks(sent, size)
    && (0 < c && Rem(c, size) == 0 ==> SentSoFar(buf, sent, k + c, size))
  }

  /** What the hardware is about to send, and what is left to do after it. */
  ghost predicate InNext(e: Endpoint)
    requires WellSized(e)
  {
    var n, k, s := |e.job.buf|, e.job.nbTrans, e.ctrl.size;
    && e.ctrl.aux == 0 && k <= n < WORD && s == e.bus.size
    && (k < n ==>
          && e.ctrl.cnt == NextTrans(n - k, s)
          && e.ctrl.dataPtr == UserBuffer(k)
          && (e.job.shortPacket <==> e.bus.wantShort && Rem(e.ctrl.cnt, s) == 0))
    && (k == n ==> e.ctrl.cnt == 0 && !e.job.shortPacket && e.bus.wantShort)
  }

  /** An IN job in progress: what has been sent, and what the hardware is about to send. */
  ghost predicate InProgress(e: Endpoint)
    requires WellSized(e)
  {
    InNext(e) && SentSoFar(e.job.buf, e.bus.sent, e.job.nbTrans, e.ctrl.size)
  }

  /** An IN job that has run to its end. */
  ghost predicate InDone(r: Record) {
    && 0 < r.bus.size
    && r.nbTrans == |r.buf|
    && Flatten(r.bus.sent) == r.buf
    && AllPackets(r.bus.sent, r.bus.size) == Wanted(r.buf, r.bus.size, r.bus.wantShort)
    && GoodChunks(r.bus.sent, r.bus.size)
  }

  /** A chunk covers the rest, or is a positive number of whole packets. */
  lemma NextTransFits(left: nat, size: nat)
    requires 0 < left && 8 <= size <= 1023
    ensures 0 < NextTrans(left, size) <= left && NextTrans(left, size) <= MAX_TRANS
    ensures NextTrans(left, size) < left ==> Rem(NextTrans(left, size), size) == 0
    ensures Rem(NextTrans(left, size), size) == 0 || NextTrans(left, size) == left
  {
    RemCut(MAX_TRANS, size);
  }

  /** The IN window lies inside the user buffer. */
  lemma InWindow(e: Endpoint)
    requires WellSized(e) && InNext(e)
    ensures 0 < e.ctrl.cnt ==> e.ctrl.dataPtr.UserBuffer? && e.ctrl.dataPtr.offset + e.ctrl.cnt <= |e.job.buf|
    ensures e.job.nbTrans + e.ctrl.cnt <= |e.job.buf| && e.ctrl.cnt <= MAX_TRANS
    ensures Window(e) == e.job.buf[e.job.nbTrans..e.job.nbTrans + e.ctrl.cnt]
  {
    if e.job.nbTrans < |e.job.buf| {
      NextTransFits(|e.job.buf| - e.job.nbTrans, e.ctrl.size);
    }
  }

  lemma InStarts(e: Endpoint, shortPacket: bool, buf: seq<byte>, hasCallback: bool)
    requires WellSized(e) && e.dirIn && RunAccepted(e, buf) && |buf| < WORD
    ensures var f := RunJob(e, shortPacket, buf, hasCallback);
      && f.job.busy && !f.ctrl.nack0 && InProgress(f)
      && f.hist.calls == e.hist.calls && f.hist.ended == e.hist.ended
  {
    hide Flatten, AllPackets, Packetize, WholePackets;
    NothingSent(buf, e.ctrl.size);
  }

  lemma NothingSent(buf: seq<byte>, size: nat)
    requires 0 < size
    ensures SentSoFar(buf, [], 0, size)
  {
    assert buf[..0] == [];
  }

  lemma ChunkSizes(sent: seq<seq<byte>>, chunk: seq<byte>, s: nat)
    requires 0 < s && WholePackets(sent, s) && |chunk| <= MAX_TRANS
    ensures GoodChunks(sent + [chunk], s)
    ensures 0 < |chunk| && Rem(|chunk|, s) == 0 ==> WholePackets(sent + [chunk], s)
  {
    assert (sent + [chunk])[..|sent|] == sent;
  }

  /** Sending one more chunk of the buffer, behind whole packets. */
  lemma ChunkOnBus(buf: seq<byte>, sent: seq<seq<byte>>, k: nat, c: nat, s: nat)
    requires 0 < s && k + c <= |buf| && c <= MAX_TRANS && SentSoFar(buf, sent, k, s)
    ensures SentMore(buf, sent + [buf[k..k + c]], k, c, s)
  {
    var chunk := buf[k..k + c];
    SendOne(sent, chunk, s);
    ChunkSizes(sent, chunk, s);
    assert buf[..k] + chunk == buf[..k + c];
    PacketizeAppend(buf[..k], chunk, s);
    RemAdd(k, c, s);
  }

  /** What the bus has seen once the armed transfer is sent. */
  lemma InChunkSent(e: Endpoint)
    requires WellSized(e) && InProgress(e)
    ensures e.job.nbTrans + e.ctrl.cnt <= |e.job.buf|
    ensures SentMore(e.job.buf, HwSent(e).bus.sent, e.job.nbTrans, e.ctrl.cnt, e.ctrl.size)
  {
    InWindow(e);
    ChunkOnBus(e.job.buf, e.bus.sent, e.job.nbTrans, e.ctrl.cnt, e.ctrl.size);
  }

  /** The record of a job that has just ended. */
  function Ended(e: Endpoint, status: Status): Record {
    Record(status, e.job.buf, e.job.nbTrans, e.bus)
  }

  function CompletionCall(e: Endpoint): seq<Call> {
    if e.job.callback.NullPtr? then [] else [AsTrans(e.job.callback, TransferOk, e.job.nbTrans)]
  }

  /** The interrupt when bytes remain. */
  lemma InArmsNext(e: Endpoint)
    requires WellSized(e) && e.dirIn && e.job.busy && InNext(e)
    requires e.job.nbTrans + e.ctrl.cnt < |e.job.buf|
    ensures var n, k, s, g := |e.job.buf|, e.job.nbTrans + e.ctrl.cnt, e.ctrl.size, HwSent(e);
      TransComplet(g) ==
         g.(job := e.job.(nbTrans := k, shortPacket := e.job.shortPacket && Rem(NextTrans(n - k, s), s) == 0),
            ctrl := g.ctrl.(aux := 0, cnt := NextTrans(n - k, s), dataPtr := UserBuffer(k), nack0 := false))
  {}

  /** The last transfer was whole packets, and more of the buffer is about to be sent. */
  lemma InNextArmed(e: Endpoint)
    requires WellSized(e) && e.dirIn && e.job.busy && InNext(e)
    requires e.job.nbTrans + e.ctrl.cnt < |e.job.buf|
    ensures 0 < e.ctrl.cnt && Rem(e.ctrl.cnt, e.ctrl.size) == 0 && InNext(TransComplet(HwSent(e)))
  {
    NextTransFits(|e.job.buf| - e.job.nbTrans, e.ctrl.size);
    InArmsNext(e);
  }

  lemma InContinues(e: Endpoint)
    requires WellSized(e) && e.dirIn && e.job.busy && InProgress(e)
    requires e.job.nbTrans + e.ctrl.cnt < |e.job.buf|
    ensures InGoesOn(e)
  {
    hide Flatten, AllPackets, Packetize, WholePackets;
    InArmsNext(e);
    InNextArmed(e);
    InMoreSent(e);
  }

  lemma InMoreSent(e: Endpoint)
    requires WellSized(e) && e.dirIn && e.job.busy && InProgress(e)
    requires e.job.nbTrans + e.ctrl.cnt < |e.job.buf|
    ensures SentSoFar(e.job.buf, HwSent(e).bus.sent, e.job.nbTrans + e.ctrl.cnt, e.ctrl.size)
  {
    InNextArmed(e);
    InChunkSent(e);
  }

  /** The interrupt when only a zero-length packet is missing. */
  lemma InClosesWithZlp(e: Endpoint)
    requires WellSized(e) && e.dirIn && e.job.busy && InProgress(e)
    requires e.job.nbTrans < |e.job.buf| == e.job.nbTrans + e.ctrl.cnt && e.job.shortPacket
    ensures InGoesOn(e)
  {
    InChunkSent(e);
    InArmsZlp(e);
  }

  lemma InArmsZlp(e: Endpoint)
    requires WellSized(e) && e.dirIn && e.job.busy && InNext(e)
    requires e.job.nbTrans < |e.job.buf| == e.job.nbTrans + e.ctrl.cnt && e.job.shortPacket
    ensures var g := HwSent(e);
      TransComplet(g) == g.(job := e.job.(nbTrans := |e.job.buf|, shortPacket := false),
                            ctrl := g.ctrl.(aux := 0, cnt := 0, nack0 := false))
  {}

  /** After the interrupt the next transfer, or a zero-length packet, is armed. */
  ghost predicate InGoesOn(e: Endpoint)
    requires WellSized(e) && e.dirIn
  {
    var f := TransComplet(HwSent(e));
    && f.job.busy && !f.ctrl.nack0 && InProgress(f)
    && f.hist.calls == e.hist.calls && f.hist.ended == e.hist.ended
  }

  /** After the interrupt the job is over, and its callback hears of every byte. */
  lemma InFinishes(e: Endpoint)
    requires WellSized(e) && e.dirIn && e.job.busy && InNext(e)
    requires e.job.nbTrans + e.ctrl.cnt == |e.job.buf| && (e.job.nbTrans < |e.job.buf| ==> !e.job.shortPacket)
    ensures var g, f := HwSent(e), TransComplet(HwSent(e));
      && f.job == e.job.(busy := false, nbTrans := |e.job.buf|) && !f.job.shortPacket
      && f.hist.calls == e.hist.calls + CompletionCall(f)
      && f.hist.ended == e.hist.ended + [Ended(f, TransferOk)]
      && Ended(f, TransferOk) == Record(TransferOk, e.job.buf, |e.job.buf|, g.bus) && g.bus.size == e.ctrl.size
  {}

  lemma InEnds(e: Endpoint)
    requires WellSized(e) && e.dirIn && e.job.busy && InProgress(e)
    requires e.job.nbTrans + e.ctrl.cnt == |e.job.buf| && (e.job.nbTrans < |e.job.buf| ==> !e.job.shortPacket)
    ensures InCompletes(e)
  {
    InChunkSent(e);
    InFinishes(e);
    assert e.job.buf[..|e.job.buf|] == e.job.buf;
  }

  ghost predicate InCompletes(e: Endpoint)
    requires WellSized(e) && e.dirIn
  {
    var f := TransComplet(HwSent(e));
    && !f.job.busy && InDone(Ended(f, TransferOk))
    && f.hist.calls == e.hist.calls + CompletionCall(f)
    && f.hist.ended == e.hist.ended + [Ended(f, TransferOk)]
  }

  // ----- OUT

  /** The last packet of the buffer cannot be counted in 16 bits only if it is partial and the
      count up to the next packet boundary is out of range. */
  predicate NoWrap(n: nat, size: nat)
    requires 0 < size
  {
    Rem(n, size) == 0 || n - Rem(n, size) + size < WORD
  }

  /** An OUT job in progress: everything received so far is in the buffer, and the armed window is
      the next part of the buffer or, for the unfilled tail shorter than a packet, the cache. */
  ghost predicate OutProgress(e: Endpoint)
    requires WellSized(e)
  {
    var n, k, s := |e.job.buf|, e.job.nbTrans, e.ctrl.size;
    && e.ctrl.cnt == 0 && k < n < WORD && s == e.bus.size
    && (s <= CACHE_SIZE || Rem(n, s) == 0)
    && |e.bus.got| == k && e.job.buf[..k] == e.bus.got && Rem(k, s) == 0
    && (match e.ctrl.dataPtr
        case UserBuffer(offset) =>
          !e.job.useCache && offset == k && 0 < e.ctrl.aux && k + e.ctrl.aux <= n && Rem(e.ctrl.aux, s) == 0
        case CacheBuffer =>
          e.job.useCache && e.ctrl.aux == s <= CACHE_SIZE && n - k == Rem(n, s))
  }

  /** An OUT job that has run to its end stored the received bytes, as many as the buffer holds. */
  ghost predicate OutDone(r: Record) {
    && r.nbTrans == Min(|r.bus.got|, |r.buf|)
    && r.buf[..r.nbTrans] == r.bus.got[..r.nbTrans]
  }

  /** The window an OUT job arms when left bytes remain and k have been received. */
  lemma OutWindow(n: nat, k: nat, s: nat)
    requires 8 <= s <= 1023 && k < n && Rem(k, s) == 0
    ensures var left := NextTrans(n - k, s); var next := left - Rem(left, s);
      && k + next <= n && Rem(next, s) == 0
      && (next < s <==> next == 0) && (next == 0 <==> n - k == Rem(n, s))
  {
    var left := NextTrans(n - k, s);
    NextTransFits(n - k, s);
    RemCut(left, s);
    RemSub(n, k, s);
    if MAX_TRANS < n - k {
      assert left == MAX_TRANS - Rem(MAX_TRANS, s) && left > 0;
      assert Rem(n, s) < s <= MAX_TRANS;
    }
  }

  lemma OutArmed(e: Endpoint)
    requires WellSized(e) && |e.job.buf| < WORD && e.ctrl.size == e.bus.size
    requires e.ctrl.size <= CACHE_SIZE || Rem(|e.job.buf|, e.ctrl.size) == 0
    requires |e.bus.got| == e.job.nbTrans < |e.job.buf| && e.job.buf[..e.job.nbTrans] == e.bus.got
    requires Rem(e.job.nbTrans, e.ctrl.size) == 0 && !e.job.useCache
    ensures OutProgress(OutArm(e))
  {
    OutWindow(|e.job.buf|, e.job.nbTrans, e.ctrl.size);
  }

  lemma OutStarts(e: Endpoint, shortPacket: bool, buf: seq<byte>, hasCallback: bool)
    requires WellSized(e) && !e.dirIn && RunAccepted(e, buf) && |buf| < WORD
    requires e.ctrl.size <= CACHE_SIZE || e.ctrl.epType.Isochronous?
    ensures var f := RunJob(e, shortPacket, buf, hasCallback);
      && (f.job.busy <==> |buf| > 0)
      && (f.job.busy ==> OutProgress(f) && !f.ctrl.nack0 && f.hist.calls == e.hist.calls)
      && (f.job.busy ==> f.hist.ended == e.hist.ended)
      && (!f.job.busy ==> OutDone(Ended(f, TransferOk)) && f.hist.ended == e.hist.ended + [Ended(f, TransferOk)])
  {
    var r := Registered(e, shortPacket, buf, hasCallback);
    if |buf| > 0 {
      OutArmed(r);
      assert TransComplet(r) == OutArm(r);
    }
  }

  /** The buffer after a reception into it. */
  lemma OutSpliced(e: Endpoint, data: seq<byte>)
    requires WellSized(e) && OutProgress(e) && |data| <= e.ctrl.aux && e.ctrl.dataPtr.UserBuffer?
    ensures var k, h := e.job.nbTrans, HwReceived(e, data);
      && k + |data| <= |e.job.buf| == |h.job.buf|
      && h.job.buf[..k + |data|] == h.bus.got == e.bus.got + data
  {}

  lemma OutArmsNext(e: Endpoint, data: seq<byte>)
    requires WellSized(e) && !e.dirIn && OutProgress(e)
    requires e.ctrl.dataPtr.UserBuffer? && |data| == e.ctrl.aux && e.job.nbTrans + |data| < |e.job.buf|
    ensures var h := HwReceived(e, data);
      TransComplet(h) == OutArm(h.(job := h.job.(nbTrans := e.job.nbTrans + |data|)))
  {
    hide OutArm, NextTrans;
  }

  /** All that was asked for has arrived and the buffer is not full: the job goes on. */
  lemma OutToBufferMore(e: Endpoint, data: seq<byte>)
    requires WellSized(e) && !e.dirIn && e.job.busy && OutProgress(e)
    requires e.ctrl.dataPtr.UserBuffer? && |data| == e.ctrl.aux && e.job.nbTrans + |data| < |e.job.buf|
    ensures OutReceives(e, data)
  {
    var h := HwReceived(e, data);
    OutSpliced(e, data);
    OutArmsNext(e, data);
    RemAdd(e.job.nbTrans, |data|, e.ctrl.size);
    OutArmed(h.(job := h.job.(nbTrans := e.job.nbTrans + |data|)));
  }

  /** The buffer is full, or the host has sent less than was asked for: the job is over. */
  lemma OutToBufferEnds(e: Endpoint, data: seq<byte>)
    requires WellSized(e) && !e.dirIn && e.job.busy && OutProgress(e) && |data| <= e.ctrl.aux
    requires e.ctrl.dataPtr.UserBuffer? && (|data| < e.ctrl.aux || e.job.nbTrans + |data| == |e.job.buf|)
    ensures OutReceives(e, data)
  {
    OutSpliced(e, data);
    OutBufferFinishes(e, data);
  }

  lemma OutBufferFinishes(e: Endpoint, data: seq<byte>)
    requires WellSized(e) && !e.dirIn && OutProgress(e) && |data| <= e.ctrl.aux
    requires e.ctrl.dataPtr.UserBuffer? && (|data| < e.ctrl.aux || e.job.nbTrans + |data| == |e.job.buf|)
    ensures var h, n := HwReceived(e, data), e.job.nbTrans + |data|;
      TransComplet(h) == Finish(h.(job := h.job.(nbTrans := n)), TransferOk, n)
  {
    hide OutArm, NextTrans;
  }

  /** The copy out of the cache fills exactly the tail of the buffer. */
  lemma OutCacheCopy(e: Endpoint, data: seq<byte>)
    requires WellSized(e) && OutProgress(e) && |data| <= e.ctrl.aux && e.ctrl.dataPtr.CacheBuffer?
    ensures var k, m, h := e.job.nbTrans, Rem(|e.job.buf|, e.ctrl.size), HwReceived(e, data);
      var buf, t := FromCache(h.job.buf, k, h.cache, m), Min(|data|, m);
      && k + m == |e.job.buf| && h.bus.got == e.bus.got + data
      && buf[..k + t] == h.bus.got[..k + t]
  {
  }

  lemma OutCacheFinishes(e: Endpoint, data: seq<byte>)
    requires WellSized(e) && !e.dirIn && e.job.busy && OutProgress(e) && |data| <= e.ctrl.aux
    requires e.ctrl.dataPtr.CacheBuffer? && NoWrap(|e.job.buf|, e.ctrl.size)
    ensures var n, h, f := |e.job.buf|, HwReceived(e, data), TransComplet(HwReceived(e, data));
      && !f.job.busy && f.bus.got == h.bus.got
      && f.job.buf == FromCache(h.job.buf, e.job.nbTrans, h.cache, Rem(n, e.ctrl.size))
      && f.job.nbTrans == Min(e.job.nbTrans + |data|, n)
      && f.hist.calls == e.hist.calls + CompletionCall(f)
      && f.hist.ended == e.hist.ended + [Ended(f, TransferOk)]
  {
    hide OutArm, NextTrans;
  }

  /** A reception into the cache ends the job. */
  lemma OutToCache(e: Endpoint, data: seq<byte>)
    requires WellSized(e) && !e.dirIn && e.job.busy && OutProgress(e) && |data| <= e.ctrl.aux
    requires e.ctrl.dataPtr.CacheBuffer? && NoWrap(|e.job.buf|, e.ctrl.size)
    ensures OutReceives(e, data)
  {
    OutCacheCopy(e, data);
    OutCacheFinishes(e, data);
  }

  /** The interrupt after data has been received. */
  ghost predicate OutReceives(e: Endpoint, data: seq<byte>)
    requires WellSized(e) && !e.dirIn
  {
    var f := TransComplet(HwReceived(e, data));
    && f.bus.got == e.bus.got + data
    && (f.job.busy <==> |data| == e.ctrl.aux && |e.bus.got| + |data| < |e.job.buf|)
    && if f.job.busy then
         OutProgress(f) && !f.ctrl.nack0 && f.hist.calls == e.hist.calls && f.hist.ended == e.hist.ended
       else
         && OutDone(Ended(f, TransferOk))
         && f.hist.calls == e.hist.calls + CompletionCall(f)
         && f.hist.ended == e.hist.ended + [Ended(f, TransferOk)]
  }

  // ----- over every run

  /** How a recorded job must have ended.  An aborted job has moved a prefix. */
  ghost predicate RecordOk(dirIn: bool, r: Record) {
    if r.status.TransferOk? then (if dirIn then InDone(r) else OutDone(r))
    else
      && r.nbTrans <= |r.buf|
      && (if dirIn then Flatten(r.bus.sent) else r.bus.got) == r.buf[..r.nbTrans]
  }

  ghost predicate RecordsOk(dirIn: bool, ended: seq<Record>) {
    forall i :: 0 <= i < |ended| ==> RecordOk(dirIn, ended[i])
  }

  /** The job in progress, if any, is on its way. */
  ghost predicate OnItsWay(e: Endpoint)
    requires WellSized(e)
  {
    RunBusy(e) ==> if e.dirIn then InProgress(e) else OutProgress(e) && NoWrap(|e.job.buf|, e.ctrl.size)
  }

  /** The cache takes a packet, where it is needed. */
  predicate CacheFits(e: Endpoint) {
    !e.dirIn && IsEnabled(e) ==> e.ctrl.epType.Isochronous? || e.ctrl.size <= CACHE_SIZE
  }

  /** The data side of an endpoint: the job in progress is on its way, and every job that has ever
      ended has moved the bytes it should. */
  ghost predicate Faithful(e: Endpoint) {
    Lifecycle(e) && OnItsWay(e) && CacheFits(e) && RecordsOk(e.dirIn, e.hist.ended)
  }

  /** No job has ended, or one as it should. */
  ghost predicate EndsWell(e: Endpoint, f: Endpoint) {
    || f.hist.ended == e.hist.ended
    || (f.hist.ended == e.hist.ended + [Ended(f, TransferOk)] && RecordOk(e.dirIn, Ended(f, TransferOk)))
  }

  lemma StaysFaithful(e: Endpoint, f: Endpoint)
    requires Faithful(e) && Lifecycle(f) && OnItsWay(f) && CacheFits(f) && f.dirIn == e.dirIn && EndsWell(e, f)
    ensures Faithful(f)
  {}

  /** What the data side asks of callers: OUT buffers whose count cannot wrap, and OUT endpoints
      whose packets fit the cache unless they are isochronous. */
  predicate SaneData(e: Endpoint, ev: Event)
    requires WellSized(e)
  {
    && Sane(e, ev)
    && (ev.EvRun? && !e.dirIn ==> NoWrap(|ev.buf|, e.ctrl.size))
    && (ev.EvAlloc? && !e.dirIn ==> ev.epType.Isochronous? || EpSize(ev.maxSize) <= CACHE_SIZE)
  }

  /** The record an abort leaves. */
  lemma AbortRecord(e: Endpoint)
    requires Faithful(e) && !WaitBusy(e)
    ensures Faithful(Abort(e))
  {
    AbortLifecycle(e);
  }

  /** The hardware has moved p bytes of the transfer in progress, in whole packets, and counted them. */
  function Underway(e: Endpoint, p: nat): Endpoint {
    e.(ctrl := if e.dirIn then e.ctrl.(aux := p) else e.ctrl.(cnt := p))
  }

  /** What the transfers of the job before that one have moved. */
  function Moved(e: Endpoint): seq<byte> {
    if e.dirIn then Flatten(e.bus.sent) else e.bus.got
  }

  /** An aborted job is told the count of the hardware transfer in progress, and not how much of the
      job has been moved; that is right exactly if it is the job's first transfer. */
  lemma AbortTells(e: Endpoint, p: nat)
    requires Faithful(e) && RunBusy(e) && !e.job.callback.NullPtr?
    requires p <= if e.dirIn then e.ctrl.cnt else e.ctrl.aux
    ensures var f := Abort(Underway(e, p));
      && f.hist.calls == e.hist.calls + [AsTrans(e.job.callback, TransferAbort, p)]
      && f.hist.ended == e.hist.ended + [Ended(e, TransferAbort)]
      && RecordOk(e.dirIn, Ended(e, TransferAbort))
      && (p == |Moved(e)| + p <==> Moved(e) == [])
  {
    AbortRecord(e);
    assert RecordOk(e.dirIn, Abort(e).hist.ended[|e.hist.ended|]);
  }

  lemma InSendsAlways(e: Endpoint)
    requires WellSized(e) && e.dirIn && e.job.busy && InProgress(e)
    ensures if TransComplet(HwSent(e)).job.busy then InGoesOn(e) else InCompletes(e)
  {
    InWindow(e);
    if e.job.nbTrans + e.ctrl.cnt < |e.job.buf| {
      InContinues(e);
    } else if e.job.nbTrans < |e.job.buf| && e.job.shortPacket {
      InClosesWithZlp(e);
    } else {
      InEnds(e);
    }
  }

  lemma InStepFaithful(e: Endpoint)
    requires Faithful(e) && Armed(e) && e.dirIn
    ensures Faithful(Step(e, EvSent))
  {
    StepKeepsLifecycle(e, EvSent);
    InSendsAlways(e);
    CompletionKeeps(HwSent(e));
    StaysFaithful(e, Step(e, EvSent));
  }

  lemma OutReceivesAlways(e: Endpoint, data: seq<byte>)
    requires WellSized(e) && !e.dirIn && e.job.busy && OutProgress(e) && |data| <= e.ctrl.aux
    requires NoWrap(|e.job.buf|, e.ctrl.size)
    ensures OutReceives(e, data)
  {
    if e.ctrl.dataPtr.CacheBuffer? {
      OutToCache(e, data);
    } else if |data| == e.ctrl.aux && e.job.nbTrans + |data| < |e.job.buf| {
      OutToBufferMore(e, data);
    } else {
      OutToBufferEnds(e, data);
    }
  }

  lemma OutStepFaithful(e: Endpoint, data: seq<byte>)
    requires Faithful(e) && Armed(e) && !e.dirIn && |data| <= e.ctrl.aux
    ensures Faithful(Step(e, EvReceived(data)))
  {
    StepKeepsLifecycle(e, EvReceived(data));
    OutReceivesAlways(e, data);
    CompletionKeeps(HwReceived(e, data));
    StaysFaithful(e, Step(e, EvReceived(data)));
  }

  lemma RunStepFaithful(e: Endpoint, shortPacket: bool, buf: seq<byte>, hasCallback: bool)
    requires Faithful(e) && |buf| < WORD && (!e.dirIn ==> NoWrap(|buf|, e.ctrl.size))
    ensures Faithful(RunJob(e, shortPacket, buf, hasCallback))
  {
    RunJobLifecycle(e, shortPacket, buf, hasCallback);
    if RunAccepted(e, buf) {
      CompletionKeeps(Registered(e, shortPacket, buf, hasCallback));
      if e.dirIn {
        InStarts(e, shortPacket, buf, hasCallback);
      } else {
        OutStarts(e, shortPacket, buf, hasCallback);
      }
    }
    StaysFaithful(e, RunJob(e, shortPacket, buf, hasCallback));
  }

  /** The steps that neither move data nor end a job. */
  lemma QuietStepFaithful(e: Endpoint, ev: Event)
    requires Faithful(e) && Occurs(e, ev) && SaneData(e, ev)
    requires ev.EvAlloc? || ev.EvClearHalt? || ev.EvWaitStallClear?
    ensures Faithful(Step(e, ev))
  {
    StepKeepsLifecycle(e, ev);
    StaysFaithful(e, Step(e, ev));
  }

  lemma StepFaithful(e: Endpoint, ev: Event)
    requires Faithful(e) && Occurs(e, ev) && SaneData(e, ev)
    ensures Faithful(Step(e, ev))
  {
    match ev
    case EvRun(shortPacket, buf, hasCallback) => RunStepFaithful(e, shortPacket, buf, hasCallback);
    case EvSent => InStepFaithful(e);
    case EvReceived(data) => OutStepFaithful(e, data);
    case EvAbort => AbortRecord(e);
    case EvFree => FreeFaithful(e);
    case EvSetHalt => HaltFaithful(e);
    case _ => QuietStepFaithful(e, ev);
  }

  lemma FreeFaithful(e: Endpoint)
    requires Faithful(e) && !WaitBusy(e)
    ensures Faithful(Free(e))
  {
    AbortRecord(e);
    StepKeepsLifecycle(e, EvFree);
    StaysFaithful(Abort(e), Free(e));
  }

  lemma HaltFaithful(e: Endpoint)
    requires Faithful(e) && !WaitBusy(e)
    ensures Faithful(SetHalt(e))
  {
    AbortRecord(e);
    StepKeepsLifecycle(e, EvSetHalt);
    StaysFaithful(Abort(e), SetHalt(e));
  }

  ghost predicate SaneDataRun(e: Endpoint, evs: seq<Event>)
    requires WellSized(e) && Possible(e, evs)
    decreases |evs|
  {
    |evs| == 0 || (SaneData(e, evs[0]) && SaneDataRun(Step(e, evs[0]), evs[1..]))
  }

  /** Over every run, whatever is interleaved with the transfers. */
  lemma {:induction false} RunKeepsFaithful(e: Endpoint, evs: seq<Event>)
    requires Faithful(e) && Possible(e, evs) && SaneDataRun(e, evs)
    ensures Faithful(Run(e, evs))
    decreases |evs|
  {
    if |evs| > 0 {
      StepFaithful(e, evs[0]);
      RunKeepsFaithful(Step(e, evs[0]), evs[1..]);
    }
  }

  lemma InitialFaithful(dirIn: bool)
    ensures Faithful(Initial(dirIn))
  {
    InitialLifecycle(dirIn);
  }
}
