/** What the host sees of the control endpoint besides its data: when it is stalled, what a bus reset
    forgets, when protocol errors are watched, and the data stages over several buffers. */
module ControlStages {
  import opened Packets
  import opened ControlSteps
  import opened ControlData

  // ----- stalls

  /** The data of a packet is refused: at the end of the stage by over_under_run, or in the middle of it
      because there is no room for more. */
  predicate NoRoom(c: Control, n: nat, answer: Answer)
    requires Words(c) && n <= EP_CTRL_SIZE
  {
    var k := Kept(c, n);
    var t := Plus(c.trans, k);
    if k != 8 || c.rq.req.wLength <= Plus(c.prev, t) then c.rq.overrun && answer.Decline?
    else t == c.rq.payloadSize && (!c.rq.overrun || answer.Decline?)
  }

  /** The steps after which the control endpoint is stalled. */
  predicate Stalls(c: Control, ev: Event)
    requires Words(c) && Occurs(c, ev)
  {
    match ev
    case EvSetup(n, _, decision, _) => n == 8 && decision.Reject?
    case EvInSent(_) => false
    case EvOutReceived(data, answer) => !c.state.HandshakeWaitOutZlp? && NoRoom(c, |data|, answer)
    case EvUnderflow => c.ep.stalled || c.state.HandshakeWaitOutZlp?
    case EvOverflow => c.ep.stalled || c.state.HandshakeWaitInZlp?
    case EvReset => false
  }

  /** A rejected SETUP packet is answered with a stall; an accepted one lifts it; data is refused by a
      stall; and a status stage in which the host goes on with the data stage is stalled: it sends while
      the device waits for its zero-length packet to be fetched, or the other way round. */
  lemma StalledIff(c: Control, ev: Event)
    requires Words(c) && Occurs(c, ev)
    ensures Step(c, ev).ep.stalled <==> Stalls(c, ev)
  {
    match ev
    case EvSetup(n, req, decision, answer) => SetupStalls(c, n, req, decision, answer);
    case EvOutReceived(data, answer) => OutStalls(c, data, answer);
    case _ =>
  }

  /** Before every SETUP packet the endpoint has lost its stall and its arming. */
  lemma SetupStalls(c: Control, n: nat, req: Request, d: Decision, answer: Answer)
    requires Words(c) && RequestOk(req) && DecisionOk(req, d)
    ensures var f := SetupReceived(HwSetup(c), n, req, d, answer);
      && (f.ep.stalled <==> n == 8 && d.Reject?) && (f.state.StallReq? <==> n == 8 && d.Reject?)
      && (n != 8 ==> f.state.WaitSetup?)
  {
    FreshQuiet(c);
    if n == 8 && d.Accept? {
      BeginQuiet(Accepted(Received(Fresh(HwSetup(c)), req), req, d), answer);
    }
  }

  lemma FreshQuiet(c: Control)
    ensures var f := Fresh(HwSetup(c));
      && !f.ep.stalled && !f.ep.outArmed && f.state.WaitSetup?
      && (c.state.WaitSetup? ==> f.ep.inArmed == c.ep.inArmed) && (!c.state.WaitSetup? ==> !f.ep.inArmed)
  {}

  lemma BeginQuiet(c: Control, answer: Answer)
    requires Words(c) && !c.ep.stalled
    ensures var f := Begin(c, answer);
      && !f.ep.stalled && !f.state.StallReq? && f.ep.errorInt == c.ep.errorInt
      && (c.state.WaitSetup? ==> !f.state.WaitSetup?)
  {}

  lemma OutStalls(c: Control, data: seq<byte>, answer: Answer)
    requires Words(c) && !c.ep.stalled && |data| <= EP_CTRL_SIZE
    ensures OutReceived(HwOutReceived(c, data), data, answer).ep.stalled
       <==> !c.state.HandshakeWaitOutZlp? && NoRoom(c, |data|, answer)
  {
    hide Store, CopyIn;
    var h := HwOutReceived(c, data);
    assert Kept(h, |data|) == Kept(c, |data|);
    StoreKeepsTurns(h, data);
    StoreKeepsRequest(h, data);
  }

  lemma StoreKeepsRequest(c: Control, data: seq<byte>)
    requires Words(c) && |data| <= EP_CTRL_SIZE
    ensures var f := Store(c, data);
      && f.ep == c.ep && f.prev == c.prev && f.trans == Plus(c.trans, Kept(c, |data|))
      && f.rq.req == c.rq.req && f.rq.overrun == c.rq.overrun && f.rq.payloadSize == c.rq.payloadSize
  {}

  /** A request that the decoder rejects, after anything: the host sees a stall, and no data moves. */
  lemma RejectedStalls(c: Control, req: Request, answer: Answer)
    requires Words(c) && RequestOk(req) && AnswerOk(answer)
    ensures var f := Step(c, EvSetup(8, req, Reject, answer));
      && f.state.StallReq? && f.ep.stalled
      && f.rq == CtrlReq(req, f.rq.payload, 0, NoCallback, false)
      && (forall a :: AnswerOk(a) ==> !Occurs(f, EvInSent(a)))
      && (forall data, a :: !Occurs(f, EvOutReceived(data, a)))
  {
    FreshQuiet(c);
  }

  /** A request without data leaves the counters of the data stage before it. */
  lemma NoDataKeepsCounters(c: Control, req: Request, d: Decision, answer: Answer)
    requires Words(c) && Occurs(c, EvSetup(8, req, d, answer)) && d.Accept? && !IsIn(req) && req.wLength == 0
    ensures var f := Step(c, EvSetup(8, req, d, answer));
      && f.prev == c.prev && f.trans == c.trans && f.state.HandshakeWaitInZlp? && f.ep.inArmed && f.ep.inCnt == 0
  {}

  // ----- resets and errors

  /** A bus reset leaves nothing of the request before. */
  lemma ResetForgets(c: Control)
    ensures var f := BusReset(c);
      && f.state.WaitSetup? && f.address == 0 && f.rq.callback.NoCallback? && f.rq.payloadSize == 0 && !f.rq.overrun
      && !f.ep.inArmed && !f.ep.outArmed && !f.ep.stalled && !f.ep.errorInt && f.ep.inCnt == 0
      && f.hist.requests == c.hist.requests && f.hist.callbacks == c.hist.callbacks
      && f.hist.log == c.hist.log + [Reset]
  {}

  /** The start is what a bus reset leaves where nothing has happened. */
  lemma InitialIsReset()
    ensures var c := Initial(); BusReset(c.(hist := c.hist.(log := []))) == c
    ensures Initial().hist == History([], [], [Reset], [], [], [], false)
    ensures Initial().prev == 0 == Initial().trans && !Initial().shortPacket
  {}

  /** Underflow and overflow are watched from a SETUP packet to the end of its request, as long as the host
      lets data stages end. */
  lemma {:induction false} ErrorsWatched(c: Control, evs: seq<Event>)
    requires Words(c) && Possible(c, evs) && NoEarlyStatus(c, evs) && Turns(c)
    requires c.ep.errorInt <==> !c.state.WaitSetup?
    ensures Run(c, evs).ep.errorInt <==> !Run(c, evs).state.WaitSetup?
    decreases |evs|
  {
    if |evs| > 0 {
      TurnsIff(c, evs[0]);
      ArmedIsInTurn(c, evs[0]);
      ErrorsWatchedStep(c, evs[0]);
      ErrorsWatched(Step(c, evs[0]), evs[1..]);
    }
  }

  lemma ErrorsWatchedStep(c: Control, ev: Event)
    requires Words(c) && Occurs(c, ev) && InTurn(c, ev) && (c.ep.errorInt <==> !c.state.WaitSetup?)
    ensures Step(c, ev).ep.errorInt <==> !Step(c, ev).state.WaitSetup?
  {
    match ev
    case EvSetup(n, req, decision, answer) => SetupWatched(c, n, req, decision, answer);
    case EvOutReceived(data, answer) => OutWatched(c, data, answer);
    case _ =>
  }

  lemma SetupWatched(c: Control, n: nat, req: Request, d: Decision, answer: Answer)
    requires Words(c) && RequestOk(req) && DecisionOk(req, d) && (c.ep.errorInt <==> !c.state.WaitSetup?)
    ensures var f := SetupReceived(HwSetup(c), n, req, d, answer); f.ep.errorInt <==> !f.state.WaitSetup?
  {
    FreshQuiet(c);
    if n == 8 && d.Accept? {
      BeginQuiet(Accepted(Received(Fresh(HwSetup(c)), req), req, d), answer);
    }
  }

  lemma OutWatched(c: Control, data: seq<byte>, answer: Answer)
    requires Words(c) && |data| <= EP_CTRL_SIZE && (c.ep.errorInt <==> !c.state.WaitSetup?)
    requires c.state.DataOut? || c.state.HandshakeWaitOutZlp?
    ensures var f := OutReceived(HwOutReceived(c, data), data, answer); f.ep.errorInt <==> !f.state.WaitSetup?
  {
    hide Store, Kept, CopyIn, DataComplete;
    StoreKeepsTurns(HwOutReceived(c, data), data);
    StoreKeepsRequest(HwOutReceived(c, data), data);
  }

  // ----- several buffers

  /** The IN data stage goes on in the buffer that over_under_run supplies, once the one before is sent. */
  lemma NextInBuffer(c: Control, answer: Answer)
    requires Words(c) && c.state.DataIn? && c.trans == c.rq.payloadSize && !c.shortPacket && c.rq.overrun
    requires c.prev + c.trans < c.rq.req.wLength && answer.Provide? && AnswerOk(answer)
    ensures var f := InSent(HwInSent(c), answer); var n := if answer.size < 8 then answer.size else 8;
      && f.state.DataIn? && f.ep.inArmed && Packet(f) == answer.buf[..n]
      && f.trans == n && f.prev == c.prev + c.trans && (f.shortPacket <==> answer.size < 8)
      && f.rq == c.rq.(payload := answer.buf, payloadSize := answer.size)
  {}

  /** Without a supply it is closed by a zero-length packet, and after that, or once all the host has asked
      for is sent, the status packet is awaited. */
  lemma InCloses(c: Control, answer: Answer)
    requires Words(c) && c.state.DataIn? && c.trans == c.rq.payloadSize && c.prev + c.trans < WORD
    ensures var f := InSent(HwInSent(c), answer);
      && f.prev == c.prev + c.trans && f.rq.req == c.rq.req
      && (c.prev + c.trans == c.rq.req.wLength || c.shortPacket ==>
            f.state.HandshakeWaitOutZlp? && f.ep.outArmed && !f.ep.inArmed)
      && (c.prev + c.trans != c.rq.req.wLength && !c.shortPacket && (!c.rq.overrun || answer.Decline?) ==>
            f.state.DataIn? && f.ep.inArmed && f.ep.inCnt == 0 && f.shortPacket)
  {}

  /** At the end of an OUT data stage payload_size says how much has arrived, unless a buffer is supplied. */
  lemma EndSizes(c: Control, answer: Answer)
    requires Words(c)
    ensures EndOfData(c, answer).rq ==
      if c.rq.overrun && answer.Provide? then c.rq.(payload := answer.buf, payloadSize := answer.size)
      else c.rq.(payloadSize := c.trans)
  {}

  /** The OUT data stage goes on in the buffer supplied when the one before is full, and the request's last
      buffer may be supplied when all has arrived. */
  lemma NextOutBuffer(c: Control, data: seq<byte>, answer: Answer)
    requires OutStage(c) && c.state.DataOut? && |data| <= EP_CTRL_SIZE && AnswerOk(answer)
    requires Countable(c.rq.req.wLength, c.rq.overrun, c.rq.payloadSize)
    requires c.rq.overrun && answer.Provide?
    ensures var f := OutReceived(HwOutReceived(c, data), data, answer); var k := Fitting(c, |data|);
      var full, over := c.trans + k == c.rq.payloadSize, k != 8 || c.rq.req.wLength <= c.prev + c.trans + k;
      && f.rq == (if over || full then c.rq.(payload := answer.buf, payloadSize := answer.size)
                  else c.rq.(payload := f.rq.payload))
      && (full && !over ==> f.prev == c.prev + c.trans + k && f.trans == 0)
  {
    StoreStep(c, data);
  }
}
