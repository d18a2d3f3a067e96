/** When the copies of the control endpoint leave the payload: over every run, whatever the host
    sends, and for every request the decoder may accept. */
module ControlSafety {
  import opened Packets
  import opened ControlSteps
  import opened ControlData
  import opened ControlStages

  /** A received packet whose copy leaves the payload: the count is past the size of the payload, or
      the packet takes it past 16 bits. */
  predicate Stray(c: Control, ev: Event) {
    && ev.EvOutReceived? && !c.state.HandshakeWaitOutZlp?
    && (c.rq.payloadSize < c.trans || c.trans + |ev.data| >= WORD)
  }

  /** Armed IN packets lie inside the payload, and the payload has the size it is said to have. */
  predicate PayloadSafe(c: Control) {
    && Words(c) && c.rq.payloadSize <= |c.rq.payload|
    && (c.state.StallReq? ==> c.ep.stalled)
    && (c.ep.inArmed && c.state.HandshakeWaitInZlp? ==> c.ep.inCnt == 0)
    && (c.ep.inArmed && (c.state.DataIn? || c.state.HandshakeWaitOutZlp?) ==>
          c.ep.inOff + c.ep.inCnt == c.trans <= c.rq.payloadSize)
    && (c.state.DataIn? ==> c.ep.inArmed && !c.ep.outArmed)
    && (c.state.DataOut? || c.state.WaitSetup? ==> !c.ep.inArmed)
  }

  // ----- one step

  /** The bytes kept of a packet fit the payload exactly when the packet is not stray, and in any case
      the count is inside the payload afterwards. */
  lemma KeptFitsIff(c: Control, n: nat)
    requires Words(c) && n <= EP_CTRL_SIZE
    ensures var k := Kept(c, n);
      && (k <= n && c.trans + k <= c.rq.payloadSize <==> c.trans <= c.rq.payloadSize && c.trans + n < WORD)
      && Plus(c.trans, k) <= c.rq.payloadSize
  {}

  lemma CopyFaultIff(c: Control, data: seq<byte>, k: nat)
    requires c.rq.payloadSize <= |c.rq.payload|
    ensures var f := CopyIn(c, data, k);
      && (f.hist.fault <==> c.hist.fault || !(k <= |data| && c.trans + k <= c.rq.payloadSize))
      && |f.rq.payload| == |c.rq.payload| && f == c.(rq := c.rq.(payload := f.rq.payload), hist := f.hist)
  {}

  /** Whatever the state, the copy of a packet leaves the payload exactly when the packet is stray. */
  lemma StoreFaultIff(c: Control, data: seq<byte>)
    requires Words(c) && c.rq.payloadSize <= |c.rq.payload| && |data| <= EP_CTRL_SIZE
    ensures var f := Store(c, data);
      && (f.hist.fault <==> c.hist.fault || c.rq.payloadSize < c.trans || c.trans + |data| >= WORD)
      && f.trans <= f.rq.payloadSize && |f.rq.payload| == |c.rq.payload|
      && f == c.(rq := c.rq.(payload := f.rq.payload), trans := f.trans, hist := f.hist)
  {
    KeptFitsIff(c, |data|);
    CopyFaultIff(c, data, Kept(c, |data|));
  }

  lemma EndKeepsFault(c: Control, answer: Answer)
    requires Words(c)
    ensures EndOfData(c, answer).hist == c.hist && NextBuffer(c, answer).hist == c.hist
  {}

  /** The exact condition of one received packet. */
  lemma ReceivedFaultIff(c: Control, data: seq<byte>, answer: Answer)
    requires Words(c) && c.rq.payloadSize <= |c.rq.payload| && |data| <= EP_CTRL_SIZE
    ensures OutReceived(HwOutReceived(c, data), data, answer).hist.fault
       <==> c.hist.fault || Stray(c, EvOutReceived(data, answer))
  {
    if !c.state.HandshakeWaitOutZlp? {
      var h := HwOutReceived(c, data);
      StoreFaultIff(h, data);
      EndKeepsFault(Store(h, data), answer);
    }
  }

  /** A SETUP packet, like a bus reset, leaves nothing armed. */
  lemma FreshSafe(c: Control)
    requires PayloadSafe(c)
    ensures var f := Fresh(HwSetup(c));
      PayloadSafe(f) && f.state.WaitSetup? && !f.ep.outArmed && f.hist.fault == c.hist.fault
    ensures var f := Init(EndOfRequest(c));
      PayloadSafe(f) && f.hist.fault == c.hist.fault && f.ep.outArmed == c.ep.outArmed
  {
    FreshShape(c);
  }

  lemma SendSafe(c: Control, remain: nat)
    requires Words(c) && c.trans + remain == c.rq.payloadSize <= |c.rq.payload|
    requires c.state.DataIn? || c.state.HandshakeWaitOutZlp?
    requires c.state.DataIn? ==> !c.ep.outArmed
    ensures var f := SendPacket(c, remain);
      PayloadSafe(f) && f.state == c.state && f.hist == c.hist && f.ep.outArmed == c.ep.outArmed
  {
    PacketInside(c, remain);
  }

  /** The next IN packet of a data stage, also after the host has begun the status stage. */
  lemma NextInSafe(c: Control, answer: Answer)
    requires Words(c) && c.trans <= c.rq.payloadSize <= |c.rq.payload| && AnswerOk(answer) && !c.ep.inArmed
    requires c.state.DataIn? || c.state.HandshakeWaitOutZlp?
    requires c.state.DataIn? ==> !c.ep.outArmed
    ensures var f := InSent(c, answer);
      PayloadSafe(f) && f.hist == c.hist && (f.state == c.state || f.state.HandshakeWaitOutZlp?)
  {
    if c.trans < c.rq.payloadSize {
      SendSafe(c, c.rq.payloadSize - c.trans);
    } else {
      var c1 := c.(prev := Plus(c.prev, c.trans));
      SendSafe(c1, 0);
      if answer.Provide? {
        SendSafe(Supplied(c1, answer).(trans := 0), answer.size);
      }
    }
  }

  lemma InSentSafe(c: Control, answer: Answer)
    requires PayloadSafe(c) && c.ep.inArmed && !c.ep.stalled && AnswerOk(answer)
    ensures var f := InSent(HwInSent(c), answer); PayloadSafe(f) && f.hist.fault == c.hist.fault
  {
    if c.state.HandshakeWaitInZlp? {
      FreshSafe(HwInSent(c));
    } else {
      NextInSafe(HwInSent(c), answer);
    }
  }

  lemma BeginSafe(c: Control, answer: Answer)
    requires PayloadSafe(c) && c.state.WaitSetup? && !c.ep.outArmed && AnswerOk(answer)
    requires IsIn(c.rq.req) || c.rq.req.wLength != 0 ==> c.trans == 0 == c.prev
    ensures var f := Begin(c, answer);
      && PayloadSafe(f) && f.hist == c.hist && StageBegins(c.rq.req, f)
      && (f.state.DataOut? ==> f.rq == c.rq)
  {
    if IsIn(c.rq.req) {
      NextInSafe(c.(state := DataIn), answer);
    }
  }

  /** The first stage of an accepted request: one endpoint is armed for it, and in a data stage the
      count is that of the packet armed. */
  predicate StageBegins(req: Request, c: Control) {
    && c.rq.req == req && c.ep.inArmed == !c.ep.outArmed
    && match c.state
       case DataOut => !IsIn(req) && req.wLength != 0 && c.ep.outArmed && c.trans == 0 == c.prev
       case DataIn => IsIn(req) && c.ep.inArmed && c.ep.inOff == 0 == c.prev && c.trans == c.ep.inCnt
       case HandshakeWaitInZlp => !IsIn(req) && req.wLength == 0 && c.ep.inArmed && c.ep.inCnt == 0
       case HandshakeWaitOutZlp => IsIn(req) && c.ep.outArmed
       case _ => false
  }

  lemma AcceptedSafe(c: Control, req: Request, d: Decision)
    requires PayloadSafe(c) && c.state.WaitSetup? && !c.ep.outArmed && c.rq.req == req
    requires RequestOk(req) && DecisionOk(req, d) && d.Accept?
    ensures var f := Accepted(c, req, d);
      && PayloadSafe(f) && f.state.WaitSetup? && !f.ep.outArmed && f.rq.req == req && f.hist.fault == c.hist.fault
      && f.rq.payloadSize == d.size && f.rq.overrun == d.overrun
      && (IsIn(req) || req.wLength != 0 ==> f.trans == 0 && f.prev == 0)
  {}

  lemma SetupSafe(c: Control, n: nat, req: Request, d: Decision, answer: Answer)
    requires PayloadSafe(c) && RequestOk(req) && DecisionOk(req, d) && AnswerOk(answer)
    ensures var f := SetupReceived(HwSetup(c), n, req, d, answer);
      && PayloadSafe(f) && f.hist.fault == c.hist.fault
      && (if n == 8 && d.Accept? then StageBegins(req, f) else !f.ep.inArmed && !f.ep.outArmed)
      && (f.state.DataOut? ==> f.rq.payloadSize == d.size && f.rq.overrun == d.overrun)
      && (f.ep.stalled <==> n == 8 && d.Reject?) && (f.state.StallReq? <==> n == 8 && d.Reject?)
      && (n != 8 ==> f.state.WaitSetup?)
  {
    FreshSafe(c);
    SetupStalls(c, n, req, d, answer);
    if n == 8 {
      var c2 := Received(Fresh(HwSetup(c)), req);
      if d.Accept? {
        AcceptedSafe(c2, req, d);
        BeginSafe(Accepted(c2, req, d), answer);
      }
    }
  }

  lemma OutReceivedSafe(c: Control, data: seq<byte>, answer: Answer)
    requires PayloadSafe(c) && c.ep.outArmed && !c.ep.stalled && |data| <= EP_CTRL_SIZE && AnswerOk(answer)
    ensures PayloadSafe(OutReceived(HwOutReceived(c, data), data, answer))
  {
    var h := HwOutReceived(c, data);
    if c.state.HandshakeWaitOutZlp? {
      FreshSafe(h);
    } else {
      StoreFaultIff(h, data);
      StoredSafe(Store(h, data), answer);
    }
  }

  lemma StoredSafe(c: Control, answer: Answer)
    requires Words(c) && c.trans <= c.rq.payloadSize <= |c.rq.payload| && AnswerOk(answer)
    requires c.state.DataOut? || c.state.HandshakeWaitInZlp? || c.state.WaitSetup?
    requires if c.state.HandshakeWaitInZlp? then c.ep.inArmed ==> c.ep.inCnt == 0 else !c.ep.inArmed
    ensures PayloadSafe(EndOfData(c, answer)) && PayloadSafe(NextBuffer(c, answer))
    ensures PayloadSafe(c.(ep := c.ep.(outArmed := true)))
  {}

  /** Every step keeps IN packets inside the payload, and faults exactly for a stray packet. */
  lemma StepSafe(c: Control, ev: Event)
    requires PayloadSafe(c) && Occurs(c, ev)
    ensures PayloadSafe(Step(c, ev))
    ensures Step(c, ev).hist.fault <==> c.hist.fault || Stray(c, ev)
  {
    match ev
    case EvSetup(n, req, decision, answer) => SetupSafe(c, n, req, decision, answer);
    case EvInSent(answer) => InSentSafe(c, answer);
    case EvOutReceived(data, answer) =>
      OutReceivedSafe(c, data, answer);
      ReceivedFaultIff(c, data, answer);
    case _ =>
  }

  // ----- every run

  ghost predicate SomeStray(c: Control, evs: seq<Event>)
    requires Words(c) && Possible(c, evs)
    decreases |evs|
  {
    |evs| > 0 && (Stray(c, evs[0]) || SomeStray(Step(c, evs[0]), evs[1..]))
  }

  /** Over every run, with any requests, answers and packets: each armed IN packet lies inside the
      payload, and a copy has left the payload exactly if a stray packet was received. */
  lemma {:induction false} RunDataSafe(c: Control, evs: seq<Event>)
    requires PayloadSafe(c) && Possible(c, evs)
    ensures PayloadSafe(Run(c, evs))
    ensures Run(c, evs).hist.fault <==> c.hist.fault || SomeStray(c, evs)
    decreases |evs|
  {
    if |evs| > 0 {
      StepSafe(c, evs[0]);
      RunDataSafe(Step(c, evs[0]), evs[1..]);
    }
  }

  lemma InitialSafe()
    ensures PayloadSafe(Initial()) && !Initial().hist.fault
  {}

  // ----- which requests are safe against every host

  /** The data stage ends with its first packet. */
  predicate OnePacket(wLength: nat, payloadSize: nat) {
    wLength <= EP_CTRL_SIZE || payloadSize <= EP_CTRL_SIZE
  }

  /** The OUT endpoint is armed for a status packet, or for the only packet of a data stage. */
  predicate FirstPacketOnly(c: Control) {
    && PayloadSafe(c) && !c.hist.fault
    && (c.ep.outArmed && !c.state.HandshakeWaitOutZlp? ==>
          && c.trans == 0 == c.prev && !c.rq.overrun && !c.state.StallReq?
          && OnePacket(c.rq.req.wLength, c.rq.payloadSize))
  }

  predicate ShortRequest(ev: Event) {
    ev.EvSetup? && ev.decision.Accept? && !IsIn(ev.req) ==>
      !ev.decision.overrun && OnePacket(ev.req.wLength, ev.decision.size)
  }

  lemma SetupFirst(c: Control, n: nat, req: Request, d: Decision, answer: Answer)
    requires FirstPacketOnly(c) && Occurs(c, EvSetup(n, req, d, answer)) && ShortRequest(EvSetup(n, req, d, answer))
    ensures FirstPacketOnly(SetupReceived(HwSetup(c), n, req, d, answer))
  {
    SetupSafe(c, n, req, d, answer);
  }

  lemma InSentFirst(c: Control, answer: Answer)
    requires FirstPacketOnly(c) && Occurs(c, EvInSent(answer))
    ensures FirstPacketOnly(InSent(HwInSent(c), answer))
  {
    InSentSafe(c, answer);
    if !c.state.HandshakeWaitInZlp? {
      NextInSafe(HwInSent(c), answer);
    }
  }

  lemma OutReceivedFirst(c: Control, data: seq<byte>, answer: Answer)
    requires FirstPacketOnly(c) && Occurs(c, EvOutReceived(data, answer))
    ensures FirstPacketOnly(OutReceived(HwOutReceived(c, data), data, answer))
  {
    OutReceivedSafe(c, data, answer);
    ReceivedFaultIff(c, data, answer);
    if !c.state.HandshakeWaitOutZlp? {
      OnlyPacketEnds(HwOutReceived(c, data), data, answer);
    }
  }

  lemma OnlyPacketEnds(c: Control, data: seq<byte>, answer: Answer)
    requires Words(c) && c.rq.payloadSize <= |c.rq.payload| && |data| <= EP_CTRL_SIZE && !c.ep.outArmed
    requires c.trans == 0 == c.prev && !c.rq.overrun && OnePacket(c.rq.req.wLength, c.rq.payloadSize)
    requires !c.state.HandshakeWaitOutZlp?
    ensures !OutReceived(c, data, answer).ep.outArmed
  {
    StoreFaultIff(c, data);
    var f := Store(c, data);
    assert f.trans == Kept(c, |data|);
  }

  lemma ShortStepSafe(c: Control, ev: Event)
    requires FirstPacketOnly(c) && Occurs(c, ev) && ShortRequest(ev)
    ensures FirstPacketOnly(Step(c, ev))
  {
    match ev
    case EvSetup(n, req, decision, answer) => SetupFirst(c, n, req, decision, answer);
    case EvInSent(answer) => InSentFirst(c, answer);
    case EvOutReceived(data, answer) => OutReceivedFirst(c, data, answer);
    case _ => StepSafe(c, ev);
  }

  lemma {:induction false} ShortRequestsAreSafe(c: Control, evs: seq<Event>)
    requires FirstPacketOnly(c) && Possible(c, evs) && forall i :: 0 <= i < |evs| ==> ShortRequest(evs[i])
    ensures FirstPacketOnly(Run(c, evs))
    decreases |evs|
  {
    if |evs| > 0 {
      ShortStepSafe(c, evs[0]);
      ShortRequestsAreSafe(Step(c, evs[0]), evs[1..]);
    }
  }

  // ----- early status stages

  /** The start of an OUT data stage into one buffer. */
  predicate OutBegins(c: Control) {
    && PayloadSafe(c) && !c.hist.fault && c.state.DataOut? && c.ep.outArmed && !c.ep.stalled && c.ep.errorInt
    && !c.rq.overrun && c.trans == 0 == c.prev
  }

  /** The host sends a packet, goes on to the status stage, and sends another packet after it. */
  function EarlyStatusThenData(): (evs: seq<Event>) {
    var ev := EvOutReceived(FullPacket(), Decline);
    [ev, EvUnderflow, EvInSent(Decline), ev]
  }

  /** That leaves the payload, whenever the stage is not over with its first packet: the count of
      the broken off stage is still there when the size of the payload is not. */
  lemma EarlyStatusOverruns(c: Control)
    requires OutBegins(c) && !OnePacket(c.rq.req.wLength, c.rq.payloadSize)
    ensures Possible(c, EarlyStatusThenData()) && Run(c, EarlyStatusThenData()).hist.fault
  {
    var ev := EvOutReceived(FullPacket(), Decline);
    FirstPacketGoesOn(c, FullPacket());
    var c1 := Step(c, ev);
    StatusKeepsCount(c1);
    var c2 := Step(c1, EvUnderflow);
    var c3 := Step(c2, EvInSent(Decline));
    ReceivedFaultIff(c3, FullPacket(), Decline);
    RunCons(c3, ev, []);
    RunCons(c2, EvInSent(Decline), [ev]);
    RunCons(c1, EvUnderflow, [EvInSent(Decline), ev]);
    RunCons(c, ev, [EvUnderflow, EvInSent(Decline), ev]);
  }

  lemma RunCons(c: Control, ev: Event, evs: seq<Event>)
    requires Words(c) && Occurs(c, ev) && Possible(Step(c, ev), evs)
    ensures Possible(c, [ev] + evs) && Run(c, [ev] + evs) == Run(Step(c, ev), evs)
  {
    assert ([ev] + evs)[1..] == evs;
  }

  /** The status stage in the middle of a data stage: afterwards another packet can be received. */
  lemma StatusKeepsCount(c: Control)
    requires Words(c) && c.state.DataOut? && c.ep.outArmed && !c.ep.stalled && c.ep.errorInt && 0 < c.trans
    requires !c.hist.fault
    ensures var f := Step(c, EvUnderflow);
      && Occurs(f, EvInSent(Decline))
      && var g := Step(f, EvInSent(Decline));
      && g.state.WaitSetup? && g.ep.outArmed && !g.ep.stalled && g.rq.payloadSize == 0 < g.trans
  {}

  lemma FirstPacketGoesOn(c: Control, data: seq<byte>)
    requires OutBegins(c) && !OnePacket(c.rq.req.wLength, c.rq.payloadSize) && |data| == EP_CTRL_SIZE
    ensures var f := OutReceived(HwOutReceived(c, data), data, Decline);
      && f.state.DataOut? && f.ep.outArmed && !f.ep.stalled && f.ep.errorInt && f.trans == EP_CTRL_SIZE && !f.hist.fault
      && Words(f)
  {
    var h := HwOutReceived(c, data);
    StoreFaultIff(h, data);
    assert Kept(h, EP_CTRL_SIZE) == EP_CTRL_SIZE;
  }

  /** What the host can do until it sends the next SETUP packet. */
  ghost predicate UntilSetup(evs: seq<Event>) {
    forall i :: 0 <= i < |evs| ==> !evs[i].EvSetup?
  }

  /** An OUT data stage into one buffer copies inside that buffer, whatever the host does before its
      next SETUP packet, exactly if the stage is over with its first packet. */
  lemma OutStageSafeIff(c: Control)
    requires OutBegins(c)
    ensures OnePacket(c.rq.req.wLength, c.rq.payloadSize)
       <==> (forall evs :: UntilSetup(evs) && Possible(c, evs) ==> !Run(c, evs).hist.fault)
  {
    if OnePacket(c.rq.req.wLength, c.rq.payloadSize) {
      forall evs | UntilSetup(evs) && Possible(c, evs) ensures !Run(c, evs).hist.fault {
        ShortRequestsAreSafe(c, evs);
      }
    } else {
      EarlyStatusOverruns(c);
      assert UntilSetup(EarlyStatusThenData());
    }
  }

  /** From the start: a request with 16 bytes of data into a buffer of that size, broken off after
      its first packet. */
  lemma EarlyStatusWitness()
    ensures var req := Request(0x21, 9, 0, 0, 16);
      var evs := [EvSetup(8, req, Accept(Repeat(0, 16), 16, NoCallback, false), Decline)] + EarlyStatusThenData();
      Possible(Initial(), evs) && Run(Initial(), evs).hist.fault
  {
    var ev := EvSetup(8, Request(0x21, 9, 0, 0, 16), Accept(Repeat(0, 16), 16, NoCallback, false), Decline);
    InitialSafe();
    StepSafe(Initial(), ev);
    var c := Step(Initial(), ev);
    assert OutBegins(c) && c.rq.req.wLength == 16 == c.rq.payloadSize;
    EarlyStatusOverruns(c);
    assert ([ev] + EarlyStatusThenData())[1..] == EarlyStatusThenData();
  }
}
