/** The end-of-request callback of the control endpoint, over every run: when it is called, at most
    once for each accepted request, and what that makes of the device address. */
module ControlCallbacks {
  import opened Packets
  import opened ControlSteps

  /** The device address that the log accounts for: the last bus reset or SET_ADDRESS decides. */
  function AddressFrom(log: seq<Entry>): nat {
    if |log| == 0 then 0
    else match log[|log| - 1]
         case Reset => 0
         case Fired(_, callback, req) =>
           if callback.SetAddressFn? then req.wValue % 0x80 else AddressFrom(log[..|log| - 1])
  }

  predicate IsSetAddress(req: Request) {
    req.bmRequestType == 0 && req.bRequest == 5 && req.wLength == 0
  }

  /** An entry belongs to an accepted request and quotes it as it was when accepted. */
  predicate Genuine(requests: seq<Request>, callbacks: seq<ReqCallback>, e: Entry)
    requires |callbacks| == |requests|
  {
    e.Fired? ==>
      && 0 <= e.setup < |requests|
      && e.req == requests[e.setup] && e.callback == callbacks[e.setup] && !e.callback.NoCallback?
  }

  /** Callbacks are called at most once for each accepted request, in order, with the fields of that
      request; one that is still registered belongs to the latest request and has not been called;
      and the address is the one the log accounts for. */
  ghost predicate Book(log: seq<Entry>, requests: seq<Request>, callbacks: seq<ReqCallback>,
                       callback: ReqCallback, req: Request, address: nat)
  {
    && |callbacks| == |requests|
    && (forall i :: 0 <= i < |callbacks| && callbacks[i].SetAddressFn? ==> IsSetAddress(requests[i]))
    && (forall i :: 0 <= i < |log| ==> Genuine(requests, callbacks, log[i]))
    && (forall i, j :: 0 <= i < j < |log| && log[i].Fired? && log[j].Fired? ==> log[i].setup < log[j].setup)
    && (!callback.NoCallback? ==>
          && 0 < |requests| && callback == callbacks[|requests| - 1] && req == requests[|requests| - 1]
          && (forall i :: 0 <= i < |log| && log[i].Fired? ==> log[i].setup < |requests| - 1))
    && address == AddressFrom(log)
  }

  ghost predicate Ledger(c: Control) {
    && Words(c)
    && (c.state.WaitSetup? ==> c.rq.callback.NoCallback?)
    && Book(c.hist.log, c.hist.requests, c.hist.callbacks, c.rq.callback, c.rq.req, c.address)
  }

  /** The steps that call a registered callback: the end of the status stage, or a SETUP packet that
      hides it. */
  predicate Fires(c: Control, ev: Event) {
    && !c.rq.callback.NoCallback?
    && match ev
       case EvSetup(_, _, _, _) => c.state.HandshakeWaitInZlp? || c.state.HandshakeWaitOutZlp?
       case EvInSent(_) => c.state.HandshakeWaitInZlp?
       case EvOutReceived(_, _) => c.state.HandshakeWaitOutZlp?
       case _ => false
  }

  lemma {:induction false} AddressFromAppend(log: seq<Entry>, e: Entry)
    ensures AddressFrom(log + [e]) ==
      match e
      case Reset => 0
      case Fired(_, callback, req) => if callback.SetAddressFn? then req.wValue % 0x80 else AddressFrom(log)
  {
    assert (log + [e])[..|log|] == log;
  }

  /** The end of a request settles its entry. */
  lemma EndLedger(c: Control)
    requires Ledger(c)
    ensures Ledger(Init(EndOfRequest(c)))
  {
    AddressFromAppend(c.hist.log, Fired(|c.hist.requests| - 1, c.rq.callback, c.rq.req));
  }

  /** The parts of the state the ledger looks at are the same. */
  predicate SameRequest(c: Control, d: Control) {
    && d.hist.log == c.hist.log && d.hist.requests == c.hist.requests && d.hist.callbacks == c.hist.callbacks
    && d.rq.callback == c.rq.callback && d.rq.req == c.rq.req && d.address == c.address
    && (d.state.WaitSetup? ==> c.state.WaitSetup?)
  }

  lemma SameLedger(c: Control, d: Control)
    requires Ledger(c) && Words(d) && SameRequest(c, d)
    ensures Ledger(d)
  {}

  /** The data stages leave the request alone. */
  lemma InSentKeepsRequest(c: Control, answer: Answer)
    requires Words(c) && !c.state.HandshakeWaitInZlp?
    ensures SameRequest(c, InSent(c, answer))
  {}

  lemma OutReceivedKeepsRequest(c: Control, data: seq<byte>, answer: Answer)
    requires Words(c) && !c.state.HandshakeWaitOutZlp? && |data| <= EP_CTRL_SIZE
    ensures SameRequest(c, OutReceived(c, data, answer))
  {
    StoreKeepsRequest(c, data);
    var c1 := Store(c, data);
    if DataComplete(c1, Kept(c, |data|)) {
      EndOfDataKeepsRequest(c1, answer);
    } else if c1.rq.payloadSize == c1.trans {
      NextBufferKeepsRequest(c1, answer);
    }
  }

  lemma StoreKeepsRequest(c: Control, data: seq<byte>)
    requires Words(c) && |data| <= EP_CTRL_SIZE
    ensures SameRequest(c, Store(c, data)) && Store(c, data).state == c.state
  {
    CopyKeepsRequest(c, data, Kept(c, |data|));
  }

  lemma CopyKeepsRequest(c: Control, data: seq<byte>, n: nat)
    ensures SameRequest(c, CopyIn(c, data, n)) && CopyIn(c, data, n).state == c.state
    ensures CopyIn(c, data, n).trans == c.trans
  {
    var p, s := CopyIn(c, data, n).rq.payload, CopyIn(c, data, n).hist.stored;
    PayloadKeepsRequest(c, p, s);
  }

  lemma PayloadKeepsRequest(c: Control, p: seq<byte>, s: seq<byte>)
    ensures var f := c.(rq := c.rq.(payload := p), hist := c.hist.(stored := s));
      SameRequest(c, f) && f.state == c.state
    ensures SameRequest(c, c.(hist := c.hist.(fault := true)))
  {}

  lemma EndOfDataKeepsRequest(c: Control, answer: Answer)
    requires Words(c)
    ensures SameRequest(c, EndOfData(c, answer))
  {}

  lemma NextBufferKeepsRequest(c: Control, answer: Answer)
    requires Words(c)
    ensures SameRequest(c, NextBuffer(c, answer))
  {}

  lemma FreshLedger(c: Control)
    requires Ledger(c)
    ensures Ledger(Fresh(c)) && Fresh(c).rq.callback.NoCallback?
  {
    EndLedger(c);
  }

  lemma AcceptedLedger(c: Control, req: Request, d: Decision)
    requires Ledger(c) && c.rq.callback.NoCallback? && c.rq.req == req
    requires d.Accept? && DecisionOk(req, d) && RequestOk(req)
    ensures Ledger(Accepted(c, req, d).(state := DataIn))
  {
    var f := Accepted(c, req, d);
    forall i | 0 <= i < |f.hist.log| ensures Genuine(f.hist.requests, f.hist.callbacks, f.hist.log[i]) {
      assert Genuine(c.hist.requests, c.hist.callbacks, c.hist.log[i]);
    }
  }

  lemma SetupLedger(c: Control, n: nat, req: Request, d: Decision, answer: Answer)
    requires Ledger(c) && RequestOk(req) && DecisionOk(req, d) && AnswerOk(answer)
    ensures Ledger(SetupReceived(c, n, req, d, answer))
  {
    FreshLedger(c);
    if n == 8 {
      var c2 := Received(Fresh(c), req);
      assert Ledger(c2);
      if d.Accept? {
        AcceptedLedger(c2, req, d);
        var c3 := Accepted(c2, req, d).(state := DataIn);
        InSentKeepsRequest(c3, answer);
        SameLedger(c3, SetupReceived(c, n, req, d, answer));
      }
    }
  }

  lemma InSentLedger(c: Control, answer: Answer)
    requires Ledger(c) && AnswerOk(answer)
    ensures Ledger(InSent(HwInSent(c), answer))
  {
    var h := HwInSent(c);
    SameLedger(c, h);
    if c.state.HandshakeWaitInZlp? {
      EndLedger(h);
    } else {
      InSentKeepsRequest(h, answer);
      SameLedger(h, InSent(h, answer));
    }
  }

  lemma OutReceivedLedger(c: Control, data: seq<byte>, answer: Answer)
    requires Ledger(c) && AnswerOk(answer) && |data| <= EP_CTRL_SIZE
    ensures Ledger(OutReceived(HwOutReceived(c, data), data, answer))
  {
    var h := HwOutReceived(c, data);
    SameLedger(c, h);
    if c.state.HandshakeWaitOutZlp? {
      EndLedger(h);
    } else {
      OutReceivedKeepsRequest(h, data, answer);
      SameLedger(h, OutReceived(h, data, answer));
    }
  }

  lemma ResetLedger(c: Control)
    requires Ledger(c)
    ensures Ledger(BusReset(c))
  {
    AddressFromAppend(c.hist.log, Reset);
  }

  lemma SetupStepLedger(c: Control, n: nat, req: Request, d: Decision, answer: Answer)
    requires Ledger(c) && RequestOk(req) && DecisionOk(req, d) && AnswerOk(answer)
    ensures Ledger(SetupReceived(HwSetup(c), n, req, d, answer))
  {
    SameLedger(c, HwSetup(c));
    SetupLedger(HwSetup(c), n, req, d, answer);
  }

  lemma UnderflowLedger(c: Control)
    requires Ledger(c)
    ensures Ledger(Underflow(c))
  {
    SameLedger(c, Underflow(c));
  }

  lemma OverflowLedger(c: Control)
    requires Ledger(c)
    ensures Ledger(Overflow(c))
  {
    SameLedger(c, Overflow(c));
  }

  /** Every step keeps the ledger. */
  lemma StepKeepsLedger(c: Control, ev: Event)
    requires Ledger(c) && Occurs(c, ev)
    ensures Ledger(Step(c, ev))
  {
    match ev
    case EvSetup(n, req, decision, answer) =>
      SetupStepLedger(c, n, req, decision, answer);
    case EvInSent(answer) =>
      InSentLedger(c, answer);
    case EvOutReceived(data, answer) =>
      OutReceivedLedger(c, data, answer);
    case EvUnderflow => UnderflowLedger(c);
    case EvOverflow => OverflowLedger(c);
    case EvReset => ResetLedger(c);
  }

  /** After a SETUP packet only the end of the request before it has been logged. */
  lemma SetupFires(c: Control, n: nat, req: Request, d: Decision, answer: Answer)
    requires Words(c) && RequestOk(req) && DecisionOk(req, d) && AnswerOk(answer)
    ensures SetupReceived(c, n, req, d, answer).hist.log == Fresh(c).hist.log
    ensures SetupReceived(c, n, req, d, answer).address == Fresh(c).address
  {
    if n == 8 {
      DecidedFires(Received(Fresh(c), req), req, d, answer);
    }
  }

  lemma DecidedFires(c: Control, req: Request, d: Decision, answer: Answer)
    requires Words(c) && DecisionOk(req, d)
    ensures Decided(c, req, d, answer).hist.log == c.hist.log && Decided(c, req, d, answer).address == c.address
  {
    if d.Accept? {
      BeginKeepsRequest(Accepted(c, req, d), answer);
    }
  }

  lemma BeginKeepsRequest(c: Control, answer: Answer)
    requires Words(c)
    ensures Begin(c, answer).hist.log == c.hist.log && Begin(c, answer).address == c.address
  {
    InSentKeepsRequest(c.(state := DataIn), answer);
  }

  /** What a step appends to the log, and the address after it. */
  function Appended(c: Control, ev: Event): seq<Entry> {
    if Fires(c, ev) then [Fired(|c.hist.requests| - 1, c.rq.callback, c.rq.req)]
    else if ev.EvReset? then [Reset]
    else []
  }

  function AddressAfter(c: Control, ev: Event): nat {
    if ev.EvReset? then 0
    else if Fires(c, ev) && c.rq.callback.SetAddressFn? then c.rq.req.wValue % 0x80
    else c.address
  }

  /** The log and the address after a step. */
  ghost predicate Recorded(c: Control, ev: Event, f: Control) {
    f.hist.log == c.hist.log + Appended(c, ev) && f.address == AddressAfter(c, ev)
  }

  /** Exactly those steps call it, and they call it with the request fields of its own request. */
  lemma FiresExactly(c: Control, ev: Event)
    requires Words(c) && Occurs(c, ev)
    ensures Recorded(c, ev, Step(c, ev))
  {
    match ev
    case EvSetup(n, req, decision, answer) => SetupStepFires(c, ev);
    case EvInSent(answer) => InStepFires(c, ev);
    case EvOutReceived(data, answer) => OutStepFires(c, ev);
    case _ =>
  }

  lemma SetupStepFires(c: Control, ev: Event)
    requires Words(c) && Occurs(c, ev) && ev.EvSetup?
    ensures Recorded(c, ev, Step(c, ev))
  {
    SetupFires(HwSetup(c), ev.n, ev.req, ev.decision, ev.answer);
    FreshFires(c);
  }

  lemma FreshFires(c: Control)
    ensures var f := Fresh(HwSetup(c));
      var fires := (c.state.HandshakeWaitInZlp? || c.state.HandshakeWaitOutZlp?) && !c.rq.callback.NoCallback?;
      && f.hist.log == c.hist.log + (if fires then [Fired(|c.hist.requests| - 1, c.rq.callback, c.rq.req)] else [])
      && f.address == if fires && c.rq.callback.SetAddressFn? then c.rq.req.wValue % 0x80 else c.address
  {}

  lemma InStepFires(c: Control, ev: Event)
    requires Words(c) && Occurs(c, ev) && ev.EvInSent?
    ensures Recorded(c, ev, Step(c, ev))
  {
    InSentFires(HwInSent(c), ev.answer);
  }

  lemma OutStepFires(c: Control, ev: Event)
    requires Words(c) && Occurs(c, ev) && ev.EvOutReceived?
    ensures Recorded(c, ev, Step(c, ev))
  {
    OutReceivedFires(HwOutReceived(c, ev.data), ev.data, ev.answer);
  }

  lemma InSentFires(c: Control, answer: Answer)
    requires Words(c)
    ensures var f := InSent(c, answer); var e := if c.state.HandshakeWaitInZlp? then EndOfRequest(c) else c;
      f.hist.log == e.hist.log && f.address == e.address
  {
    if !c.state.HandshakeWaitInZlp? {
      InSentKeepsRequest(c, answer);
    }
  }

  lemma OutReceivedFires(c: Control, data: seq<byte>, answer: Answer)
    requires Words(c) && |data| <= EP_CTRL_SIZE
    ensures var f := OutReceived(c, data, answer);
      var e := if c.state.HandshakeWaitOutZlp? then EndOfRequest(c) else c;
      f.hist.log == e.hist.log && f.address == e.address
  {
    if !c.state.HandshakeWaitOutZlp? {
      OutReceivedKeepsRequest(c, data, answer);
    }
  }

  /** Over every run. */
  lemma {:induction false} RunKeepsLedger(c: Control, evs: seq<Event>)
    requires Ledger(c) && Possible(c, evs)
    ensures Ledger(Run(c, evs))
    decreases |evs|
  {
    if |evs| > 0 {
      StepKeepsLedger(c, evs[0]);
      RunKeepsLedger(Step(c, evs[0]), evs[1..]);
    }
  }

  lemma InitialLedger()
    ensures Ledger(Initial())
  {
    assert AddressFrom([Reset]) == 0;
  }

  /** Outside a bus reset the address changes only when the callback of an accepted SET_ADDRESS is
      called, and then to the address in that same request. */
  lemma AddressChanges(c: Control, ev: Event)
    requires Ledger(c) && Occurs(c, ev) && !ev.EvReset?
    requires Step(c, ev).address != c.address
    ensures Fires(c, ev) && c.rq.callback.SetAddressFn? && IsSetAddress(c.rq.req)
    ensures c.rq.req == c.hist.requests[|c.hist.requests| - 1]
    ensures Step(c, ev).address == c.rq.req.wValue % 0x80
  {
    FiresExactly(c, ev);
  }

  /** Accepting a SET_ADDRESS does not change the address: that waits for the status stage. */
  lemma AddressWaitsForStatus(c: Control, req: Request, d: Decision, answer: Answer)
    requires Ledger(c) && Occurs(c, EvSetup(8, req, d, answer)) && IsSetAddress(req) && d.Accept?
    requires d.callback.SetAddressFn? && !Fires(c, EvSetup(8, req, d, answer))
    ensures var f := Step(c, EvSetup(8, req, d, answer));
      && f.address == c.address && f.state.HandshakeWaitInZlp? && f.ep.inArmed
      && Step(f, EvInSent(Decline)).address == req.wValue % 0x80
      && Step(f, EvInSent(Decline)).state.WaitSetup?
  {
  }

  /** A host that breaks off the status stage by sending more data is answered with a stall, but the
      next SETUP packet still counts as the end of the request and moves the address. */
  lemma StalledStatusStillFires(c: Control, req: Request, next: Request)
    requires Ledger(c) && c.state.HandshakeWaitInZlp? && c.rq.callback.SetAddressFn? && c.ep.errorInt && RequestOk(next)
    ensures var f := Step(c, EvOverflow);
      && f.ep.stalled && f.address == c.address
      && Step(f, EvSetup(8, next, Reject, Decline)).address == c.rq.req.wValue % 0x80
  {
  }
}
