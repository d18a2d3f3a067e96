/** The data stages of the control endpoint: what an IN stage puts on the bus, what an OUT stage
    stores, and when every copy stays inside the payload. */
module ControlData {
  import opened Arithmetic
  import opened Packets
  import opened ControlSteps

  // ----- packets and turns

  /** The assertions of udd_ctrl_in_sent and udd_ctrl_out_received on the state. */
  predicate InTurn(c: Control, ev: Event) {
    match ev
    case EvInSent(_) => c.state.DataIn? || c.state.HandshakeWaitInZlp?
    case EvOutReceived(_, _) => c.state.DataOut? || c.state.HandshakeWaitOutZlp?
    case _ => true
  }

  /** The host breaks off a data stage to start the status stage. */
  predicate EarlyStatus(c: Control, ev: Event) {
    || (ev.EvUnderflow? && c.state.DataOut?)
    || (ev.EvOverflow? && c.state.DataIn?)
  }

  /** An endpoint is armed only while its packet is due, and always during its data stage. */
  predicate Turns(c: Control) {
    && (c.ep.inArmed ==> c.state.DataIn? || c.state.HandshakeWaitInZlp?)
    && (c.ep.outArmed ==> c.state.DataOut? || c.state.HandshakeWaitOutZlp?)
    && (c.state.DataIn? ==> c.ep.inArmed)
    && (c.state.DataOut? ==> c.ep.outArmed)
  }

  lemma TurnsInSent(c: Control, answer: Answer)
    requires Words(c) && Turns(c) && c.ep.inArmed
    ensures Turns(InSent(HwInSent(c), answer))
  {}

  lemma TurnsOutReceived(c: Control, data: seq<byte>, answer: Answer)
    requires Words(c) && Turns(c) && c.ep.outArmed && |data| <= EP_CTRL_SIZE
    ensures Turns(OutReceived(HwOutReceived(c, data), data, answer))
  {
    if c.state.DataOut? {
      var h := HwOutReceived(c, data);
      StoreKeepsTurns(h, data);
      TurnsEndOfData(Store(h, data), answer);
      TurnsNextBuffer(Store(h, data), answer);
    }
  }

  lemma TurnsEndOfData(c: Control, answer: Answer)
    requires Words(c) && !c.ep.inArmed && !c.ep.outArmed
    ensures Turns(EndOfData(c, answer))
  {}

  lemma TurnsNextBuffer(c: Control, answer: Answer)
    requires Words(c) && c.state.DataOut? && !c.ep.inArmed && !c.ep.outArmed
    ensures Turns(NextBuffer(c, answer))
  {}

  lemma StoreKeepsTurns(c: Control, data: seq<byte>)
    requires Words(c) && |data| <= EP_CTRL_SIZE
    ensures var f := Store(c, data);
      f.ep.outArmed == c.ep.outArmed && f.ep.inArmed == c.ep.inArmed && f.state == c.state
  {}

  lemma TurnsSetup(c: Control, n: nat, req: Request, d: Decision, answer: Answer)
    requires Words(c) && Turns(c) && RequestOk(req) && DecisionOk(req, d)
    ensures Turns(SetupReceived(HwSetup(c), n, req, d, answer))
  {
    var c2 := Received(Fresh(HwSetup(c)), req);
    assert Turns(Fresh(HwSetup(c))) && !c2.ep.inArmed && !c2.ep.outArmed && c2.state.WaitSetup?;
    if d.Accept? {
      TurnsBegin(Accepted(c2, req, d), answer);
    }
  }

  lemma TurnsBegin(c: Control, answer: Answer)
    requires Words(c) && !c.ep.inArmed && !c.ep.outArmed
    ensures Turns(Begin(c, answer))
  {}

  /** Only a data stage broken off by the host leaves an endpoint armed out of turn; in every other
      step the assertions of the source go on to hold for the next packet. */
  lemma TurnsIff(c: Control, ev: Event)
    requires Words(c) && Turns(c) && Occurs(c, ev)
    ensures Turns(Step(c, ev)) <==> !EarlyStatus(c, ev)
  {
    match ev
    case EvSetup(n, req, decision, answer) => TurnsSetup(c, n, req, decision, answer);
    case EvInSent(answer) => TurnsInSent(c, answer);
    case EvOutReceived(data, answer) => TurnsOutReceived(c, data, answer);
    case _ =>
  }

  lemma ArmedIsInTurn(c: Control, ev: Event)
    requires Turns(c) && Occurs(c, ev)
    ensures InTurn(c, ev)
  {}

  ghost predicate NoEarlyStatus(c: Control, evs: seq<Event>)
    requires Words(c) && Possible(c, evs)
    decreases |evs|
  {
    |evs| == 0 || (!EarlyStatus(c, evs[0]) && NoEarlyStatus(Step(c, evs[0]), evs[1..]))
  }

  ghost predicate AllInTurn(c: Control, evs: seq<Event>)
    requires Words(c) && Possible(c, evs)
    decreases |evs|
  {
    |evs| == 0 || (InTurn(c, evs[0]) && AllInTurn(Step(c, evs[0]), evs[1..]))
  }

  /** Over every run in which the host lets data stages end, the assertions hold throughout. */
  lemma {:induction false} AssertionsHold(c: Control, evs: seq<Event>)
    requires Words(c) && Turns(c) && Possible(c, evs) && NoEarlyStatus(c, evs)
    ensures AllInTurn(c, evs) && Turns(Run(c, evs))
    decreases |evs|
  {
    if |evs| > 0 {
      ArmedIsInTurn(c, evs[0]);
      TurnsIff(c, evs[0]);
      AssertionsHold(Step(c, evs[0]), evs[1..]);
    }
  }

  // ----- OUT data stage

  /** The largest count that another packet does not take past 16 bits. */
  const LAST_COUNT: nat := WORD - EP_CTRL_SIZE

  /** The data stage is short enough to be counted in 16 bits, or the one buffer it has is. */
  predicate Countable(wLength: nat, overrun: bool, payloadSize: nat) {
    wLength <= LAST_COUNT || (!overrun && payloadSize <= LAST_COUNT)
  }

  /** An OUT data stage in progress: all that the host has sent is stored, in order, over the buffers
      supplied so far, and counted exactly; the current buffer holds the part from prev on. */
  ghost predicate OutStage(c: Control) {
    var stored := c.hist.stored;
    && Words(c)
    && c.prev + c.trans == |stored| < c.rq.req.wLength
    && c.prev % EP_CTRL_SIZE == 0 && c.trans % EP_CTRL_SIZE == 0
    && c.trans <= c.rq.payloadSize <= |c.rq.payload| && (c.trans == 0 || c.trans < c.rq.payloadSize)
    && (!c.rq.overrun ==> c.prev == 0)
    && c.hist.host == stored
    && c.rq.payload[..c.trans] == stored[c.prev..]
  }

  /** The bytes of a packet that fit the current buffer. */
  function Fitting(c: Control, n: nat): nat
    requires c.trans <= c.rq.payloadSize
  {
    if c.rq.payloadSize < c.trans + n then c.rq.payloadSize - c.trans else n
  }

  lemma KeptIsFitting(c: Control, n: nat)
    requires OutStage(c) && Countable(c.rq.req.wLength, c.rq.overrun, c.rq.payloadSize) && n <= EP_CTRL_SIZE
    ensures Kept(c, n) == Fitting(c, n)
    ensures c.trans + Fitting(c, n) <= c.rq.payloadSize && c.prev + c.trans + Fitting(c, n) < WORD
  {}

  /** The copy of a packet stays inside the buffer and appends it to what is stored. */
  lemma StoreStep(c: Control, data: seq<byte>)
    requires OutStage(c) && |data| <= EP_CTRL_SIZE
    requires Countable(c.rq.req.wLength, c.rq.overrun, c.rq.payloadSize)
    ensures var h := HwOutReceived(c, data); var f := Store(h, data); var k := Fitting(c, |data|);
      && Kept(h, |data|) == k && f.trans == c.trans + k && f.hist.fault == c.hist.fault
      && f.hist.stored == c.hist.stored + data[..k] && f.hist.host == c.hist.host + data
      && |f.rq.payload| == |c.rq.payload| && f.rq.payload[..f.trans] == f.hist.stored[c.prev..]
      && f == h.(rq := h.rq.(payload := f.rq.payload), trans := f.trans, hist := f.hist)
  {
    KeptIsFitting(c, |data|);
    var f := Store(HwOutReceived(c, data), data);
    var k := Fitting(c, |data|);
    assert f.rq.payload[..c.trans + k] == c.rq.payload[..c.trans] + data[..k];
    assert f.hist.stored[c.prev..] == c.hist.stored[c.prev..] + data[..k];
  }

  /** The condition on which the data stage goes on after a packet. */
  predicate GoesOn(c: Control, n: nat, answer: Answer)
    requires c.trans <= c.rq.payloadSize
  {
    && Fitting(c, n) == EP_CTRL_SIZE
    && c.prev + c.trans + EP_CTRL_SIZE < c.rq.req.wLength
    && (c.trans + EP_CTRL_SIZE == c.rq.payloadSize ==> c.rq.overrun && answer.Provide?)
  }

  /** The data is refused: by over_under_run, or because there is no room for more. */
  predicate Refused(c: Control, n: nat, answer: Answer)
    requires c.trans <= c.rq.payloadSize
  {
    if Fitting(c, n) == EP_CTRL_SIZE && c.prev + c.trans + EP_CTRL_SIZE < c.rq.req.wLength then
      c.trans + EP_CTRL_SIZE == c.rq.payloadSize && (!c.rq.overrun || answer.Decline?)
    else c.rq.overrun && answer.Decline?
  }

  /** A packet after which the OUT data stage goes on: it is stored whole, and the stage comes closer
      to its announced length. */
  lemma OutGoesOn(c: Control, data: seq<byte>, answer: Answer)
    requires OutStage(c) && c.state.DataOut? && |data| <= EP_CTRL_SIZE && AnswerOk(answer)
    requires Countable(c.rq.req.wLength, c.rq.overrun, c.rq.payloadSize) && GoesOn(c, |data|, answer)
    ensures var f := OutReceived(HwOutReceived(c, data), data, answer);
      && f.state.DataOut? && f.ep.outArmed && f.rq.req == c.rq.req && f.rq.overrun == c.rq.overrun
      && f.hist.fault == c.hist.fault && f.hist.stored == c.hist.stored + data && |data| == EP_CTRL_SIZE
      && OutStage(f) && Countable(f.rq.req.wLength, f.rq.overrun, f.rq.payloadSize)
      && (!c.rq.overrun ==> f.rq.payloadSize == c.rq.payloadSize)
  {
    StoreStep(c, data);
  }

  /** A packet that ends the OUT data stage: what fits the buffer is stored, and the status stage
      follows unless the data is refused. */
  lemma OutStops(c: Control, data: seq<byte>, answer: Answer)
    requires OutStage(c) && c.state.DataOut? && |data| <= EP_CTRL_SIZE && AnswerOk(answer)
    requires Countable(c.rq.req.wLength, c.rq.overrun, c.rq.payloadSize) && !GoesOn(c, |data|, answer)
    ensures var f := OutReceived(HwOutReceived(c, data), data, answer);
      var k := Fitting(c, |data|);
      && f.state == (if Refused(c, |data|, answer) then StallReq else HandshakeWaitInZlp)
      && !f.ep.outArmed && f.hist.fault == c.hist.fault
      && f.hist.stored == c.hist.stored + data[..k] && f.hist.host == c.hist.host + data
  {
    StoreStep(c, data);
    var g := Store(HwOutReceived(c, data), data);
    if DataComplete(g, Fitting(c, |data|)) {
      DataEnds(g, answer);
    } else {
      assert g.rq.payloadSize == g.trans;
    }
  }

  lemma DataEnds(c: Control, answer: Answer)
    requires Words(c) && !c.ep.outArmed
    ensures var f := EndOfData(c, answer);
      && f.state == (if c.rq.overrun && answer.Decline? then StallReq else HandshakeWaitInZlp)
      && !f.ep.outArmed && f.hist == c.hist
  {}

  /** With a single buffer, that buffer then holds what the host has sent, and payload_size says how
      much that is. */
  lemma OutStopsContent(c: Control, data: seq<byte>, answer: Answer)
    requires OutStage(c) && c.state.DataOut? && |data| <= EP_CTRL_SIZE
    requires Countable(c.rq.req.wLength, c.rq.overrun, c.rq.payloadSize) && !GoesOn(c, |data|, answer) && !c.rq.overrun
    ensures var f := OutReceived(HwOutReceived(c, data), data, answer);
      && f.hist.stored <= f.rq.payload
      && (f.state.HandshakeWaitInZlp? ==> f.rq.payloadSize == |f.hist.stored|)
  {
    StoreStep(c, data);
    var f := OutReceived(HwOutReceived(c, data), data, answer);
    assert f.rq.payload[..|f.hist.stored|] == f.hist.stored;
  }

  // ----- IN data stage

  /** The data the request asks for, cut to the size the decoder chose. */
  function Reply(c: Control): seq<byte>
    requires c.rq.payloadSize <= |c.rq.payload|
  {
    c.rq.payload[..c.rq.payloadSize]
  }

  /** What the IN data stage must put on the bus (section 5.5.3 of USB 2.0): the reply in packets, and
      a zero-length packet if the reply is shorter than asked for but ends with a full packet. */
  function Wanted(reply: seq<byte>, wLength: nat): seq<seq<byte>> {
    Packetize(reply, EP_CTRL_SIZE)
      + (if |reply| < wLength && Rem(|reply|, EP_CTRL_SIZE) == 0 then [[]] else [])
  }

  /** An IN data stage in progress. */
  ghost predicate InStage(c: Control) {
    var n, k := c.rq.payloadSize, c.trans - c.ep.inCnt;
    && Words(c) && c.state.DataIn? && c.ep.inArmed && !c.rq.overrun
    && 1 <= n <= c.rq.req.wLength && n <= |c.rq.payload|
    && 0 <= k <= n && Rem(k, EP_CTRL_SIZE) == 0 && c.ep.inOff == k
    && c.hist.wire == Packetize(c.rq.payload[..k], EP_CTRL_SIZE)
    && (k < n ==>
          && c.ep.inCnt == (if n - k >= EP_CTRL_SIZE then EP_CTRL_SIZE else n - k)
          && (c.shortPacket <==> n - k < EP_CTRL_SIZE) && c.prev == 0)
    && (k == n ==> c.ep.inCnt == 0 && c.shortPacket && n < c.rq.req.wLength)
  }

  lemma SmallRem(n: nat)
    requires n <= EP_CTRL_SIZE
    ensures Rem(n, EP_CTRL_SIZE) == 0 <==> n == 0 || n == EP_CTRL_SIZE
  {}

  /** The bus after the armed packet. */
  lemma PacketSent(c: Control)
    requires InStage(c)
    ensures c.trans <= c.rq.payloadSize
    ensures HwInSent(c).hist.wire ==
            Packetize(c.rq.payload[..c.trans], EP_CTRL_SIZE) + (if c.ep.inCnt == 0 then [[]] else [])
    ensures 0 < c.ep.inCnt ==> (Rem(c.trans, EP_CTRL_SIZE) == 0 <==> c.ep.inCnt == EP_CTRL_SIZE)
  {
    var k := c.ep.inOff;
    var packet := Packet(c);
    assert c.rq.payload[..k] + packet == c.rq.payload[..c.trans];
    PacketizeAppend(c.rq.payload[..k], packet, EP_CTRL_SIZE);
    RemAdd(k, c.ep.inCnt, EP_CTRL_SIZE);
    SmallRem(c.ep.inCnt);
    if c.ep.inCnt == EP_CTRL_SIZE {
      assert packet[EP_CTRL_SIZE..] == [] && packet[..EP_CTRL_SIZE] == packet;
      assert Packetize(packet, EP_CTRL_SIZE) == [packet] + Packetize([], EP_CTRL_SIZE);
    }
  }

  /** More packets are due. */
  predicate MoreIn(c: Control) {
    || c.trans < c.rq.payloadSize
    || (0 < c.ep.inCnt && !c.shortPacket && c.rq.payloadSize < c.rq.req.wLength)
  }

  lemma InStageContinues(c: Control, answer: Answer)
    requires InStage(c) && MoreIn(c)
    ensures var f := InSent(HwInSent(c), answer);
      InStage(f) && f.rq.payload == c.rq.payload && f.rq.payloadSize == c.rq.payloadSize && f.rq.req == c.rq.req
        && f.rq.callback == c.rq.callback && f.hist.log == c.hist.log
  {
    PacketSent(c);
  }

  lemma InStageEnds(c: Control, answer: Answer)
    requires InStage(c) && !MoreIn(c)
    ensures var f := InSent(HwInSent(c), answer);
      && f.state.HandshakeWaitOutZlp? && f.ep.outArmed
      && f.hist.wire == Wanted(Reply(c), c.rq.req.wLength)
      && f.rq.callback == c.rq.callback && f.hist.log == c.hist.log && f.rq.req == c.rq.req
  {
    PacketSent(c);
  }

  /** From any point of the IN data stage the packets that remain bring it to its end. */
  lemma {:induction false} InStageRuns(c: Control) returns (n: nat)
    requires InStage(c) && !c.ep.stalled
    ensures n <= c.rq.payloadSize - c.trans + 2
    ensures Possible(c, Repeat(EvInSent(Decline), n))
    ensures var f := Run(c, Repeat(EvInSent(Decline), n));
      && f.state.HandshakeWaitOutZlp? && f.ep.outArmed
      && f.hist.wire == Wanted(Reply(c), c.rq.req.wLength)
      && f.rq.callback == c.rq.callback && f.hist.log == c.hist.log && f.rq.req == c.rq.req
    decreases c.rq.payloadSize - c.trans, c.ep.inCnt
  {
    var ev := EvInSent(Decline);
    var m := 0;
    if MoreIn(c) {
      InStageContinues(c, Decline);
      InStageShrinks(c);
      m := InStageRuns(Step(c, ev));
    } else {
      InStageEnds(c, Decline);
    }
    n := m + 1;
    assert Repeat(ev, n)[1..] == Repeat(ev, m);
  }

  lemma InStageShrinks(c: Control)
    requires InStage(c) && MoreIn(c) && !c.ep.stalled
    ensures var f := Step(c, EvInSent(Decline));
      && !f.ep.stalled
      && (f.rq.payloadSize - f.trans < c.rq.payloadSize - c.trans
          || (c.trans == c.rq.payloadSize && f.trans == f.rq.payloadSize && f.ep.inCnt == 0 < c.ep.inCnt))
  {
    PacketSent(c);
  }

  /** The IN data stage: whatever the previous request left in the static flag, an accepted IN
      request with a reply and without over_under_run puts exactly the wanted packets on the bus and
      then waits for the status stage, with its callback still to be called. */
  lemma InTransfer(c: Control, req: Request, d: Decision, answer: Answer) returns (n: nat)
    requires Words(c) && Occurs(c, EvSetup(8, req, d, answer)) && d.Accept? && IsIn(req) && !d.overrun
    requires 0 < d.size
    ensures var evs := [EvSetup(8, req, d, answer)] + Repeat(EvInSent(Decline), n);
      && Possible(c, evs)
      && var f := Run(c, evs);
      && f.state.HandshakeWaitOutZlp? && f.ep.outArmed
      && f.hist.wire == Wanted(d.payload[..d.size], req.wLength)
      && f.rq.callback == d.callback && f.rq.req == req
      && f.hist.log == Fresh(HwSetup(c)).hist.log
  {
    var ev := EvSetup(8, req, d, answer);
    var g := Step(c, ev);
    InStarts(c, req, d, answer);
    n := InStageRuns(g);
    var evs := [ev] + Repeat(EvInSent(Decline), n);
    assert evs[1..] == Repeat(EvInSent(Decline), n);
  }

  lemma InStarts(c: Control, req: Request, d: Decision, answer: Answer)
    requires Words(c) && Occurs(c, EvSetup(8, req, d, answer)) && d.Accept? && IsIn(req) && !d.overrun
    requires 0 < d.size
    ensures var g := Step(c, EvSetup(8, req, d, answer));
      && InStage(g) && !g.ep.stalled && g.rq.payload == d.payload && g.rq.payloadSize == d.size
      && g.rq.req == req && g.rq.callback == d.callback && g.hist.log == Fresh(HwSetup(c)).hist.log
  {
    assert d.payload[..0] == [];
  }

  /** Only an empty reply, which the decoder delivers for an empty name, exposes the static flag. */
  lemma EmptyReplyExposesStaleFlag(c: Control, answer: Answer)
    requires Words(c) && c.state.DataIn? && c.rq.payloadSize == 0 && c.prev == 0 && c.trans == 0
    requires 0 < c.rq.req.wLength && !c.rq.overrun
    ensures InSent(c.(shortPacket := true), answer).state.HandshakeWaitOutZlp?
    ensures InSent(c.(shortPacket := false), answer).state.DataIn?
    ensures InSent(c.(shortPacket := false), answer).ep.inArmed
  {}

  // ----- over every run

  /** Every copy so far has stayed inside its buffer, what is stored is a prefix of what the host has
      sent, and the armed IN window lies inside the reply. */
  ghost predicate DataSafe(c: Control) {
    && Words(c)
    && !c.hist.fault && c.hist.stored <= c.hist.host
    && (c.state.DataOut? ==> OutStage(c) && Countable(c.rq.req.wLength, c.rq.overrun, c.rq.payloadSize))
    && (c.state.DataIn? ==> c.ep.inOff + c.ep.inCnt == c.trans <= c.rq.payloadSize <= |c.rq.payload|)
  }

  /** An accepted OUT data stage can be counted in 16 bits. */
  predicate CountableRequest(ev: Event) {
    ev.EvSetup? && ev.decision.Accept? && !IsIn(ev.req) ==>
      Countable(ev.req.wLength, ev.decision.overrun, ev.decision.size)
  }

  lemma FreshDataSafe(c: Control)
    requires DataSafe(c)
    ensures DataSafe(Fresh(HwSetup(c))) && DataSafe(Init(EndOfRequest(c)))
  {
    FreshShape(c);
    IdleDataSafe(Fresh(HwSetup(c)));
    IdleDataSafe(Init(EndOfRequest(c)));
  }

  lemma FreshShape(c: Control)
    requires Words(c)
    ensures var f := Fresh(HwSetup(c)); Words(f) && f.state.WaitSetup? && SameData(c, f)
    ensures var f := Init(EndOfRequest(c)); Words(f) && f.state.WaitSetup? && SameData(c, f)
  {
    EndShape(c);
    EndShape(HwSetup(c));
    InitShape(EndOfRequest(c));
    InitShape(EndOfRequest(HwSetup(c)));
    InitShape(HwSetup(c));
  }

  lemma EndShape(c: Control)
    requires Words(c)
    ensures var f := EndOfRequest(c); Words(f) && f.state == c.state && SameData(c, f)
  {}

  lemma InitShape(c: Control)
    requires Words(c)
    ensures var f := Init(c); Words(f) && f.state.WaitSetup? && SameData(c, f)
  {}

  predicate SameData(c: Control, f: Control) {
    f.hist.fault == c.hist.fault && f.hist.stored == c.hist.stored && f.hist.host == c.hist.host
  }

  /** Without a data stage only the data stored so far counts. */
  lemma IdleDataSafe(f: Control)
    requires Words(f) && f.state.WaitSetup? && !f.hist.fault && f.hist.stored <= f.hist.host
    ensures DataSafe(f)
  {}

  lemma AcceptedOutStage(c: Control, req: Request, d: Decision)
    requires Words(c) && RequestOk(req) && DecisionOk(req, d) && d.Accept? && !IsIn(req) && 0 < req.wLength
    requires c.rq.req == req
    ensures OutStage(Accepted(c, req, d).(state := DataOut, ep := c.ep.(outArmed := true)))
  {}

  lemma SetupDataSafe(c: Control, n: nat, req: Request, d: Decision, answer: Answer)
    requires DataSafe(c) && RequestOk(req) && DecisionOk(req, d) && AnswerOk(answer)
    requires d.Accept? && !IsIn(req) ==> Countable(req.wLength, d.overrun, d.size)
    ensures DataSafe(SetupReceived(HwSetup(c), n, req, d, answer))
  {
    FreshDataSafe(c);
    if n == 8 && d.Accept? {
      var c2 := Received(Fresh(HwSetup(c)), req);
      if IsIn(req) {
        InSentInTurn(Accepted(c2, req, d).(state := DataIn), answer);
      } else if req.wLength > 0 {
        AcceptedOutStage(c2, req, d);
      }
    }
  }

  /** The next IN packet is taken from inside the reply. */
  lemma InSentInTurn(c: Control, answer: Answer)
    requires Words(c) && c.state.DataIn? && c.trans <= c.rq.payloadSize <= |c.rq.payload| && AnswerOk(answer)
    ensures var f := InSent(c, answer);
      && (f.state.DataIn? || f.state.HandshakeWaitOutZlp?) && f.hist == c.hist
      && (f.state.DataIn? ==> f.ep.inOff + f.ep.inCnt == f.trans <= f.rq.payloadSize <= |f.rq.payload|)
  {
    if c.trans < c.rq.payloadSize {
      PacketInside(c, c.rq.payloadSize - c.trans);
    } else {
      var c1 := c.(prev := Plus(c.prev, c.trans));
      PacketInside(c1, 0);
      if answer.Provide? {
        PacketInside(Supplied(c1, answer).(trans := 0), answer.size);
      }
    }
  }

  lemma PacketInside(c: Control, remain: nat)
    requires c.trans + remain == c.rq.payloadSize < WORD
    ensures var f := SendPacket(c, remain);
      && f.ep.inOff + f.ep.inCnt == f.trans <= f.rq.payloadSize && f.rq.payload == c.rq.payload && f.hist == c.hist
  {}

  lemma InSentDataSafe(c: Control, answer: Answer)
    requires DataSafe(c) && AnswerOk(answer) && (c.state.DataIn? || c.state.HandshakeWaitInZlp?)
    ensures DataSafe(InSent(HwInSent(c), answer))
  {
    FreshDataSafe(HwInSent(c));
    if c.state.DataIn? {
      InSentInTurn(HwInSent(c), answer);
    }
  }

  lemma OutReceivedDataSafe(c: Control, data: seq<byte>, answer: Answer)
    requires DataSafe(c) && AnswerOk(answer) && |data| <= EP_CTRL_SIZE
    requires c.state.DataOut? || c.state.HandshakeWaitOutZlp?
    ensures DataSafe(OutReceived(HwOutReceived(c, data), data, answer))
  {
    if c.state.HandshakeWaitOutZlp? {
      FreshDataSafe(HwOutReceived(c, data));
    } else if GoesOn(c, |data|, answer) {
      OutGoesOn(c, data, answer);
    } else {
      OutStops(c, data, answer);
    }
  }

  lemma StepDataSafe(c: Control, ev: Event)
    requires DataSafe(c) && Occurs(c, ev) && InTurn(c, ev) && CountableRequest(ev)
    ensures DataSafe(Step(c, ev))
  {
    match ev
    case EvSetup(n, req, decision, answer) => SetupDataSafe(c, n, req, decision, answer);
    case EvInSent(answer) => InSentDataSafe(c, answer);
    case EvOutReceived(data, answer) => OutReceivedDataSafe(c, data, answer);
    case _ =>
  }

  /** Over every run in which the host lets data stages end: what is stored is what the host has sent,
      in order, and no copy leaves its buffer. */
  lemma {:induction false} OrderlyRunsKeepData(c: Control, evs: seq<Event>)
    requires DataSafe(c) && Turns(c) && Possible(c, evs) && NoEarlyStatus(c, evs)
    requires forall i :: 0 <= i < |evs| ==> CountableRequest(evs[i])
    ensures DataSafe(Run(c, evs)) && Turns(Run(c, evs))
    decreases |evs|
  {
    if |evs| > 0 {
      ArmedIsInTurn(c, evs[0]);
      TurnsIff(c, evs[0]);
      StepDataSafe(c, evs[0]);
      OrderlyRunsKeepData(Step(c, evs[0]), evs[1..]);
    }
  }

  // ----- exactly when a stage can be counted

  ghost predicate OnlyReceptions(evs: seq<Event>) {
    forall i :: 0 <= i < |evs| ==> evs[i].EvOutReceived?
  }

  /** Without another packet the endpoint is not armed again, so receptions stop with the stage. */
  lemma {:induction false} ReceptionsAreSafe(c: Control, evs: seq<Event>)
    requires DataSafe(c) && Possible(c, evs) && OnlyReceptions(evs)
    requires c.ep.outArmed ==> c.state.DataOut?
    ensures !Run(c, evs).hist.fault
    decreases |evs|
  {
    if |evs| > 0 {
      var data, answer := evs[0].data, evs[0].answer;
      StepDataSafe(c, evs[0]);
      if GoesOn(c, |data|, answer) {
        OutGoesOn(c, data, answer);
      } else {
        OutStops(c, data, answer);
      }
      assert OnlyReceptions(evs[1..]);
      ReceptionsAreSafe(Step(c, evs[0]), evs[1..]);
    }
  }

  function FullPacket(): seq<byte> { Repeat(0, EP_CTRL_SIZE) }

  /** Full packets into one long buffer bring the count to the last multiple of the packet size and
      then past 16 bits: that copy leaves the buffer. */
  lemma {:induction false} FullPacketsOverrun(c: Control) returns (evs: seq<Event>)
    requires OutStage(c) && c.state.DataOut? && c.ep.outArmed && !c.ep.stalled && !c.rq.overrun
    requires c.rq.req.wLength > LAST_COUNT && c.rq.payloadSize > LAST_COUNT && c.trans <= LAST_COUNT
    ensures OnlyReceptions(evs) && Possible(c, evs) && Run(c, evs).hist.fault
    decreases LAST_COUNT - c.trans
  {
    var ev := EvOutReceived(FullPacket(), Decline);
    if c.trans == LAST_COUNT {
      LastPacketFaults(c);
      evs := [ev];
      assert evs[1..] == [];
    } else {
      LongStageGoesOn(c);
      var rest := FullPacketsOverrun(Step(c, ev));
      evs := [ev] + rest;
      assert evs[1..] == rest;
    }
  }

  lemma LastPacketFaults(c: Control)
    requires OutStage(c) && c.state.DataOut? && !c.rq.overrun && c.trans == LAST_COUNT < c.rq.payloadSize
    ensures OutReceived(HwOutReceived(c, FullPacket()), FullPacket(), Decline).hist.fault
  {
    var h := HwOutReceived(c, FullPacket());
    assert Kept(h, EP_CTRL_SIZE) == EP_CTRL_SIZE;
    assert Store(h, FullPacket()).hist.fault;
  }

  lemma LongStageGoesOn(c: Control)
    requires OutStage(c) && c.state.DataOut? && !c.ep.stalled && !c.rq.overrun
    requires c.rq.req.wLength > LAST_COUNT && c.rq.payloadSize > LAST_COUNT && c.trans < LAST_COUNT
    ensures var f := OutReceived(HwOutReceived(c, FullPacket()), FullPacket(), Decline);
      && OutStage(f) && f.state.DataOut? && f.ep.outArmed && !f.ep.stalled && !f.rq.overrun
      && f.rq.req == c.rq.req && f.rq.payloadSize == c.rq.payloadSize && f.trans == c.trans + EP_CTRL_SIZE
  {
    var h, data := HwOutReceived(c, FullPacket()), FullPacket();
    var f := Store(h, data);
    assert f.rq.payload[..c.trans + EP_CTRL_SIZE] == c.rq.payload[..c.trans] + data;
    assert f.hist.stored[c.prev..] == c.hist.stored[c.prev..] + data;
  }

  /** As long as the host sends nothing but data packets, an OUT data stage into one buffer copies
      inside that buffer exactly when the stage or the buffer can be counted in 16 bits with a packet
      to spare. */
  lemma OutReceptionsSafeIff(c: Control)
    requires DataSafe(c.(state := WaitSetup)) && OutStage(c) && c.state.DataOut? && c.ep.outArmed && !c.ep.stalled
    requires !c.rq.overrun && c.hist.stored == []
    ensures Countable(c.rq.req.wLength, c.rq.overrun, c.rq.payloadSize)
       <==> (forall evs :: OnlyReceptions(evs) && Possible(c, evs) ==> !Run(c, evs).hist.fault)
  {
    if Countable(c.rq.req.wLength, c.rq.overrun, c.rq.payloadSize) {
      forall evs | OnlyReceptions(evs) && Possible(c, evs) ensures !Run(c, evs).hist.fault {
        ReceptionsAreSafe(c, evs);
      }
    } else {
      var evs := FullPacketsOverrun(c);
      assert Run(c, evs).hist.fault;
    }
  }

  /** The packets of a data stage are bounded by its announced length. */
  lemma {:induction false} OutStageBounded(c: Control, evs: seq<Event>)
    requires OutStage(c) && c.state.DataOut? && Countable(c.rq.req.wLength, c.rq.overrun, c.rq.payloadSize)
    requires Possible(c, evs) && OnlyReceptions(evs) && StaysOut(c, evs)
    ensures |c.hist.stored| + EP_CTRL_SIZE * |evs| < c.rq.req.wLength
    decreases |evs|
  {
    if |evs| > 0 {
      var data, answer := evs[0].data, evs[0].answer;
      if GoesOn(c, |data|, answer) {
        OutGoesOn(c, data, answer);
      } else {
        OutStops(c, data, answer);
      }
      assert OnlyReceptions(evs[1..]);
      OutStageBounded(Step(c, evs[0]), evs[1..]);
    }
  }

  /** The data stage is still going on after every packet. */
  ghost predicate StaysOut(c: Control, evs: seq<Event>)
    requires Words(c) && Possible(c, evs)
    decreases |evs|
  {
    |evs| == 0 || (Step(c, evs[0]).state.DataOut? && StaysOut(Step(c, evs[0]), evs[1..]))
  }
}
