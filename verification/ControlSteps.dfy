/** The control endpoint of the driver (usb_device.c): a state machine over SETUP, DATA and STATUS
    stages.  A step is one interrupt.  Assertions of the source are compiled out in this build, so a
    step is defined in every state. */
module ControlSteps {
  import opened Packets

  /** USB_DEVICE_EP_CTRL_SIZE. */
  const EP_CTRL_SIZE: nat := 8

  datatype State = WaitSetup | DataOut | DataIn | HandshakeWaitInZlp | HandshakeWaitOutZlp | StallReq

  datatype Request = Request(bmRequestType: byte, bRequest: byte, wValue: nat, wIndex: nat, wLength: nat)

  const NO_REQUEST: Request := Request(0, 0, 0, 0, 0)

  predicate IsIn(req: Request) { req.bmRequestType >= 0x80 }

  /** The callback registered for the end of a request. */
  datatype ReqCallback = NoCallback | SetAddressFn | OtherFn

  /** What the decoder of a SETUP packet answers. */
  datatype Decision =
    | Reject
    | Accept(payload: seq<byte>, size: nat, callback: ReqCallback, overrun: bool)

  /** What a call of over_under_run answers: no, or yes with a payload buffer. */
  datatype Answer = Decline | Provide(buf: seq<byte>, size: nat)

  /** Callback calls and bus resets, in order; setup is the number of the accepted request. */
  datatype Entry = Fired(setup: int, callback: ReqCallback, req: Request) | Reset

  /** The accepted requests with their callbacks, the log, and for the current request the IN packets
      sent, the OUT bytes received and those stored, and whether a copy has left its buffer. */
  datatype History = History(requests: seq<Request>, callbacks: seq<ReqCallback>, log: seq<Entry>,
                             wire: seq<seq<byte>>, host: seq<byte>, stored: seq<byte>, fault: bool)

  /** udd_g_ctrlreq. */
  datatype CtrlReq =
    CtrlReq(req: Request, payload: seq<byte>, payloadSize: nat, callback: ReqCallback, overrun: bool)

  /** The registers of endpoint 0: IN transfer, arming, stalls and error interrupts. */
  datatype Registers =
    Registers(inOff: nat, inCnt: nat, inArmed: bool, outArmed: bool, stalled: bool, errorInt: bool)

  /** The variables of the state machine, with the static of udd_ctrl_in_sent, the registers and the
      device address. */
  datatype Control = Control(
    state: State, prev: nat, trans: nat, rq: CtrlReq, shortPacket: bool, ep: Registers, address: nat, hist: History)

  // ----- what the state machine relies on

  /** What the decoder guarantees about its answers (module SetupRequests proves it). */
  predicate DecisionOk(req: Request, d: Decision) {
    d.Accept? ==>
      && d.size <= |d.payload| && d.size < WORD
      && (IsIn(req) ==> d.size <= req.wLength)
      && (d.callback.SetAddressFn? ==> req.bmRequestType == 0 && req.bRequest == 5 && req.wLength == 0)
  }

  predicate AnswerOk(a: Answer) {
    a.Provide? ==> a.size <= |a.buf| && a.size < WORD
  }

  predicate RequestOk(req: Request) {
    req.wValue < WORD && req.wIndex < WORD && req.wLength < WORD
  }

  // ----- udd_ctrl_* routines

  /** udd_ctrl_init. */
  function Init(c: Control): Control {
    c.(state := WaitSetup, ep := c.ep.(inArmed := false, inCnt := 0, errorInt := false),
       rq := c.rq.(callback := NoCallback, overrun := false, payloadSize := 0))
  }

  /** udd_ctrl_endofrequest; the callback of SET_ADDRESS is udc_valid_address. */
  function EndOfRequest(c: Control): Control {
    if c.rq.callback.NoCallback? then c
    else
      c.(address := if c.rq.callback.SetAddressFn? then c.rq.req.wValue % 0x80 else c.address,
         hist := c.hist.(log := c.hist.log + [Fired(|c.hist.requests| - 1, c.rq.callback, c.rq.req)]))
  }

  /** udd_ctrl_stall_data. */
  function StallData(c: Control): Control { c.(state := StallReq, ep := c.ep.(stalled := true)) }

  /** udd_ctrl_send_zlp_in. */
  function SendZlpIn(c: Control): Control {
    c.(state := HandshakeWaitInZlp, ep := c.ep.(inCnt := 0, inArmed := true))
  }

  /** udd_ctrl_send_zlp_out. */
  function SendZlpOut(c: Control): Control {
    c.(state := HandshakeWaitOutZlp, ep := c.ep.(outArmed := true))
  }

  /** 16-bit sum and difference. */
  function Plus(a: nat, b: nat): (r: nat)
    requires a < WORD && b < WORD
    ensures r < WORD
  {
    if a + b < WORD then a + b else a + b - WORD
  }

  function Minus(a: nat, b: nat): (r: nat)
    requires a < WORD && b < WORD
    ensures r < WORD
  {
    if b <= a then a - b else a + WORD - b
  }

  /** The payload buffer that over_under_run has supplied. */
  function Supplied(c: Control, answer: Answer): Control
    requires answer.Provide?
  {
    c.(rq := c.rq.(payload := answer.buf, payloadSize := answer.size))
  }

  /** The last part of udd_ctrl_in_sent: arm the next packet. */
  function SendPacket(c: Control, remain: nat): Control
    requires c.trans < WORD
  {
    var n := if remain >= EP_CTRL_SIZE then EP_CTRL_SIZE else remain;
    c.(shortPacket := remain < EP_CTRL_SIZE, trans := Plus(c.trans, n),
       ep := c.ep.(inCnt := n, inOff := c.trans, inArmed := true))
  }

  predicate Words(c: Control) {
    c.prev < WORD && c.trans < WORD && c.rq.payloadSize < WORD && c.rq.req.wLength < WORD
  }

  /** udd_ctrl_in_sent. */
  function InSent(c: Control, answer: Answer): (r: Control)
    requires Words(c)
    ensures AnswerOk(answer) ==> Words(r)
  {
    if c.state.HandshakeWaitInZlp? then Init(EndOfRequest(c))
    else
      var remain := Minus(c.rq.payloadSize, c.trans);
      if remain != 0 then SendPacket(c, remain)
      else
        var c1 := c.(prev := Plus(c.prev, c.trans));
        if c.rq.req.wLength == c1.prev || c.shortPacket then SendZlpOut(c1)
        else if !c.rq.overrun || answer.Decline? then SendPacket(c1, 0)
        else SendPacket(Supplied(c1, answer).(trans := 0), answer.size)
  }

  /** The copy of n received bytes to the payload; data holds at most one packet. */
  function CopyIn(c: Control, data: seq<byte>, n: nat): Control {
    if n <= |data| && c.trans + n <= |c.rq.payload| && c.trans + n <= c.rq.payloadSize then
      c.(rq := c.rq.(payload := c.rq.payload[..c.trans] + data[..n] + c.rq.payload[c.trans + n..]),
         hist := c.hist.(stored := c.hist.stored + data[..n]))
    else c.(hist := c.hist.(fault := true))
  }

  /** The number of received bytes that udd_ctrl_out_received keeps. */
  function Kept(c: Control, n: nat): (k: nat)
    requires Words(c) && n <= EP_CTRL_SIZE
    ensures k < WORD
  {
    if c.rq.payloadSize < Plus(c.trans, n) then Minus(c.rq.payloadSize, c.trans) else n
  }

  /** The payload after a received packet has been stored. */
  function Store(c: Control, data: seq<byte>): (r: Control)
    requires Words(c) && |data| <= EP_CTRL_SIZE
    ensures Words(r)
  {
    var n := Kept(c, |data|);
    CopyIn(c, data, n).(trans := Plus(c.trans, n))
  }

  /** The data stage is over: over_under_run may still refuse the data. */
  function EndOfData(c: Control, answer: Answer): (r: Control)
    requires Words(c)
    ensures AnswerOk(answer) ==> Words(r)
  {
    if c.rq.overrun && answer.Decline? then StallData(c.(rq := c.rq.(payloadSize := c.trans)))
    else if c.rq.overrun then SendZlpIn(Supplied(c, answer))
    else SendZlpIn(c.(rq := c.rq.(payloadSize := c.trans)))
  }

  /** The payload buffer is full and more data is to come. */
  function NextBuffer(c: Control, answer: Answer): (r: Control)
    requires Words(c)
    ensures AnswerOk(answer) ==> Words(r)
  {
    if !c.rq.overrun || answer.Decline? then StallData(c)
    else Supplied(c, answer).(prev := Plus(c.prev, c.trans), trans := 0, ep := c.ep.(outArmed := true))
  }

  /** The last packet is short or all announced data has arrived. */
  predicate DataComplete(c: Control, kept: nat)
    requires Words(c)
  {
    kept != EP_CTRL_SIZE || c.rq.req.wLength <= Plus(c.prev, c.trans)
  }

  /** udd_ctrl_out_received. */
  function OutReceived(c: Control, data: seq<byte>, answer: Answer): (r: Control)
    requires Words(c) && |data| <= EP_CTRL_SIZE
    ensures AnswerOk(answer) ==> Words(r)
  {
    if c.state.HandshakeWaitOutZlp? then Init(EndOfRequest(c))
    else
      var c1 := Store(c, data);
      if DataComplete(c1, Kept(c, |data|)) then EndOfData(c1, answer)
      else if c1.rq.payloadSize == c1.trans then NextBuffer(c1, answer)
      else c1.(ep := c1.ep.(outArmed := true))
  }

  /** The end of what came before a SETUP packet: a status stage hidden by it is taken as done. */
  function Fresh(c: Control): Control {
    var c0 := if c.state.HandshakeWaitInZlp? || c.state.HandshakeWaitOutZlp? then EndOfRequest(c) else c;
    if c.state.WaitSetup? then c0 else Init(c0)
  }

  /** udd_ctrl_setup_received: n is the size of the packet, decision the answer of udc_process_setup. */
  function SetupReceived(c: Control, n: nat, req: Request, decision: Decision, answer: Answer): (r: Control)
    requires Words(c) && RequestOk(req) && DecisionOk(req, decision)
    ensures AnswerOk(answer) ==> Words(r)
  {
    if n != 8 then Fresh(c)
    else Decided(Received(Fresh(c), req), req, decision, answer)
  }

  /** What follows the decoder's answer. */
  function Decided(c: Control, req: Request, decision: Decision, answer: Answer): (r: Control)
    requires Words(c) && DecisionOk(req, decision)
    ensures AnswerOk(answer) ==> Words(r)
  {
    if decision.Reject? then StallData(c) else Begin(Accepted(c, req, decision), answer)
  }

  /** The request as it has arrived, with no data and no callbacks yet. */
  function Received(c: Control, req: Request): (r: Control) {
    c.(rq := CtrlReq(req, c.rq.payload, 0, NoCallback, false), ep := c.ep.(errorInt := true))
  }

  /** The first stage of an accepted request. */
  function Begin(c: Control, answer: Answer): (r: Control)
    requires Words(c)
    ensures AnswerOk(answer) ==> Words(r)
  {
    if IsIn(c.rq.req) then InSent(c.(state := DataIn), answer)
    else if c.rq.req.wLength == 0 then SendZlpIn(c)
    else c.(state := DataOut, ep := c.ep.(outArmed := true))
  }

  /** The request as udc_process_setup leaves it.  The counters are reset before a data stage. */
  function Accepted(c: Control, req: Request, d: Decision): (r: Control)
    requires d.Accept?
  {
    var noData := !IsIn(req) && req.wLength == 0;
    c.(rq := CtrlReq(c.rq.req, d.payload, d.size, d.callback, d.overrun),
       prev := if noData then c.prev else 0, trans := if noData then c.trans else 0,
       hist := Noted(c.hist, req, d.callback))
  }

  function Noted(h: History, req: Request, callback: ReqCallback): History {
    h.(requests := h.requests + [req], callbacks := h.callbacks + [callback], wire := [], host := [], stored := [])
  }

  /** udd_ctrl_underflow, when no transfer or SETUP is waiting to be processed. */
  function Underflow(c: Control): Control {
    if c.state.DataOut? then SendZlpIn(c)
    else if c.state.HandshakeWaitOutZlp? then c.(ep := c.ep.(stalled := true))
    else c
  }

  /** udd_ctrl_overflow, when no transfer or SETUP is waiting to be processed. */
  function Overflow(c: Control): Control {
    if c.state.DataIn? then SendZlpOut(c)
    else if c.state.HandshakeWaitInZlp? then c.(ep := c.ep.(stalled := true))
    else c
  }

  /** Bus reset: address 0, endpoint 0 configured anew, state machine reset. */
  function BusReset(c: Control): Control {
    Init(c.(address := 0, ep := c.ep.(stalled := false, outArmed := false, inArmed := false),
            hist := c.hist.(log := c.hist.log + [Reset])))
  }

  // ----- the hardware

  /** The packet in the armed IN window. */
  function Packet(c: Control): seq<byte> {
    var from, n := c.ep.inOff, c.ep.inCnt;
    if n == 0 || from + n > |c.rq.payload| then [] else c.rq.payload[from..from + n]
  }

  /** A SETUP packet takes the OUT buffer and lifts the stall of the control endpoint. */
  function HwSetup(c: Control): Control { c.(ep := c.ep.(outArmed := false, stalled := false)) }

  function HwInSent(c: Control): Control {
    c.(ep := c.ep.(inArmed := false), hist := c.hist.(wire := c.hist.wire + [Packet(c)]))
  }

  function HwOutReceived(c: Control, data: seq<byte>): Control {
    c.(ep := c.ep.(outArmed := false), hist := c.hist.(host := c.hist.host + data))
  }

  // ----- runs

  datatype Event =
    | EvSetup(n: nat, req: Request, decision: Decision, answer: Answer)
    | EvInSent(answer: Answer)
    | EvOutReceived(data: seq<byte>, answer: Answer)
    | EvUnderflow
    | EvOverflow
    | EvReset

  /** The hardware delivers a packet only on an armed endpoint that is not stalled, and errors only
      while their interrupt is enabled. */
  predicate Occurs(c: Control, ev: Event) {
    match ev
    case EvSetup(_, req, decision, answer) => RequestOk(req) && DecisionOk(req, decision) && AnswerOk(answer)
    case EvInSent(answer) => c.ep.inArmed && !c.ep.stalled && AnswerOk(answer)
    case EvOutReceived(data, answer) => c.ep.outArmed && !c.ep.stalled && |data| <= EP_CTRL_SIZE && AnswerOk(answer)
    case EvUnderflow => c.ep.errorInt
    case EvOverflow => c.ep.errorInt
    case EvReset => true
  }

  function Step(c: Control, ev: Event): (r: Control)
    requires Words(c) && Occurs(c, ev)
    ensures Words(r)
  {
    match ev
    case EvSetup(n, req, decision, answer) => SetupReceived(HwSetup(c), n, req, decision, answer)
    case EvInSent(answer) => InSent(HwInSent(c), answer)
    case EvOutReceived(data, answer) => OutReceived(HwOutReceived(c, data), data, answer)
    case EvUnderflow => Underflow(c)
    case EvOverflow => Overflow(c)
    case EvReset => BusReset(c)
  }

  ghost predicate Possible(c: Control, evs: seq<Event>)
    requires Words(c)
    decreases |evs|
  {
    |evs| == 0 || (Occurs(c, evs[0]) && Possible(Step(c, evs[0]), evs[1..]))
  }

  function Run(c: Control, evs: seq<Event>): (r: Control)
    requires Words(c) && Possible(c, evs)
    ensures Words(r)
    decreases |evs|
  {
    if |evs| == 0 then c else Run(Step(c, evs[0]), evs[1..])
  }

  /** After the first bus reset; the static of udd_ctrl_in_sent is false. */
  function Initial(): (c: Control)
    ensures Words(c)
  {
    Control(WaitSetup, 0, 0, CtrlReq(NO_REQUEST, [], 0, NoCallback, false), false,
            Registers(0, 0, false, false, false, false), 0, History([], [], [Reset], [], [], [], false))
  }
}
