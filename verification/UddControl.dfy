/** The control endpoint as the driver keeps it (usb_device.c): the variables of the state machine
    and the registers of endpoint 0, updated in place by the udd_ctrl_* routines.  Every interrupt is
    the step of module ControlSteps. */
module UddControl {
  import opened Packets
  import opened ControlSteps
  import opened ControlCallbacks
  import opened ControlData
  import opened ControlStages
  import opened ControlSafety

  class ControlEndpoint {
    var state: State
    var prevPayloadNbTrans: nat
    var payloadNbTrans: nat
    /** udd_g_ctrlreq. */
    var rq: CtrlReq
    var shortPacket: bool
    var ep: Registers
    var address: nat
    /** What has happened, kept for the specification. */
    var hist: History

    function View(): Control
      reads this
    {
      Control(state, prevPayloadNbTrans, payloadNbTrans, rq, shortPacket, ep, address, hist)
    }

    /** Every callback call so far belongs to its request, the address is the one they give, and armed
        IN packets lie inside the payload. */
    ghost predicate Valid()
      reads this
    {
      Ledger(View()) && PayloadSafe(View())
    }

    /** After the first bus reset. */
    constructor ()
      ensures Valid() && View() == Initial()
    {
      state, prevPayloadNbTrans, payloadNbTrans, shortPacket := WaitSetup, 0, 0, false;
      rq := CtrlReq(NO_REQUEST, [], 0, NoCallback, false);
      ep, address := Registers(0, 0, false, false, false, false), 0;
      hist := History([], [], [Reset], [], [], [], false);
      new;
      InitialLedger();
      InitialSafe();
    }

    /** udd_ctrl_init. */
    method CtrlInit()
      modifies this
      ensures View() == Init(old(View()))
    {
      ep := ep.(errorInt := false);
      ep := ep.(inArmed := false, inCnt := 0);
      rq := rq.(callback := NoCallback, overrun := false, payloadSize := 0);
      state := WaitSetup;
    }

    /** udd_ctrl_endofrequest, and udc_valid_address as the callback of SET_ADDRESS. */
    method CtrlEndOfRequest()
      modifies this
      ensures View() == EndOfRequest(old(View()))
    {
      if !rq.callback.NoCallback? {
        hist := hist.(log := hist.log + [Fired(|hist.requests| - 1, rq.callback, rq.req)]);
        if rq.callback.SetAddressFn? {
          address := rq.req.wValue % 0x80;
        }
      }
    }

    /** udd_ctrl_stall_data. */
    method CtrlStallData()
      modifies this
      ensures View() == StallData(old(View()))
    {
      state := StallReq;
      ep := ep.(stalled := true);
    }

    /** udd_ctrl_send_zlp_in. */
    method CtrlSendZlpIn()
      modifies this
      ensures View() == SendZlpIn(old(View()))
    {
      state := HandshakeWaitInZlp;
      ep := ep.(inCnt := 0);
      ep := ep.(inArmed := true);
    }

    /** udd_ctrl_send_zlp_out. */
    method CtrlSendZlpOut()
      modifies this
      ensures View() == SendZlpOut(old(View()))
    {
      state := HandshakeWaitOutZlp;
      ep := ep.(outArmed := true);
    }

    /** The first part of udd_ctrl_setup_received. */
    method CtrlStartAfresh()
      requires Words(View())
      modifies this
      ensures Words(View()) && View() == Fresh(old(View()))
    {
      if !state.WaitSetup? {
        if state.HandshakeWaitInZlp? || state.HandshakeWaitOutZlp? {
          CtrlEndOfRequest();
        }
        CtrlInit();
      }
    }

    /** udd_ctrl_setup_received. */
    method CtrlSetupReceived(n: nat, packet: Request, decision: Decision, answer: Answer)
      requires Words(View()) && RequestOk(packet) && DecisionOk(packet, decision)
      modifies this
      ensures View() == SetupReceived(old(View()), n, packet, decision, answer)
    {
      CtrlStartAfresh();
      if n == 8 {
        CtrlReceived(packet);
        CtrlDecided(packet, decision, answer);
      }
    }

    /** What follows the decoder's answer. */
    method CtrlDecided(packet: Request, decision: Decision, answer: Answer)
      requires Words(View()) && DecisionOk(packet, decision)
      modifies this
      ensures View() == Decided(old(View()), packet, decision, answer)
    {
      if decision.Reject? {
        CtrlStallData();
        return;
      }
      CtrlAccepted(packet, decision);
      CtrlBegin(answer);
    }

    /** The fields of the request, and what udc_process_setup resets. */
    method CtrlReceived(packet: Request)
      requires Words(View()) && RequestOk(packet)
      modifies this
      ensures Words(View()) && View() == ControlSteps.Received(old(View()), packet)
    {
      rq := rq.(req := packet);
      ep := ep.(errorInt := true);
      rq := rq.(payloadSize := 0, callback := NoCallback, overrun := false);
    }

    /** What udc_process_setup leaves in udd_g_ctrlreq. */
    method CtrlAccepted(packet: Request, decision: Decision)
      requires decision.Accept?
      modifies this
      ensures View() == Accepted(old(View()), packet, decision)
    {
      rq := CtrlReq(rq.req, decision.payload, decision.size, decision.callback, decision.overrun);
      hist := Noted(hist, packet, decision.callback);
      if IsIn(packet) || packet.wLength != 0 {
        prevPayloadNbTrans := 0;
        payloadNbTrans := 0;
      }
    }

    /** The last part of udd_ctrl_setup_received. */
    method CtrlBegin(answer: Answer)
      requires Words(View())
      modifies this
      ensures View() == Begin(old(View()), answer)
    {
      if IsIn(rq.req) {
        state := DataIn;
        CtrlInSent(answer);
      } else {
        if rq.req.wLength == 0 {
          CtrlSendZlpIn();
          return;
        }
        state := DataOut;
        ep := ep.(outArmed := true);
      }
    }

    /** udd_ctrl_in_sent. */
    method CtrlInSent(answer: Answer)
      requires Words(View())
      modifies this
      ensures View() == InSent(old(View()), answer)
    {
      if state.HandshakeWaitInZlp? {
        CtrlEndOfRequest();
        CtrlInit();
        return;
      }
      var remain := Minus(rq.payloadSize, payloadNbTrans);
      if remain == 0 {
        prevPayloadNbTrans := Plus(prevPayloadNbTrans, payloadNbTrans);
        if rq.req.wLength == prevPayloadNbTrans || shortPacket {
          CtrlSendZlpOut();
          return;
        }
        if rq.overrun && answer.Provide? {
          rq := rq.(payload := answer.buf, payloadSize := answer.size);
          payloadNbTrans := 0;
          remain := rq.payloadSize;
        }
      }
      CtrlSendPacket(remain);
    }

    /** The last part of udd_ctrl_in_sent. */
    method CtrlSendPacket(remain: nat)
      requires payloadNbTrans < WORD
      modifies this
      ensures View() == SendPacket(old(View()), remain)
    {
      var n := remain;
      if n >= EP_CTRL_SIZE {
        n := EP_CTRL_SIZE;
        shortPacket := false;
      } else {
        shortPacket := true;
      }
      ep := ep.(inCnt := n, inOff := payloadNbTrans);
      payloadNbTrans := Plus(payloadNbTrans, n);
      ep := ep.(inArmed := true);
    }

    /** udd_ctrl_out_received. */
    method CtrlOutReceived(data: seq<byte>, answer: Answer)
      requires Words(View()) && |data| <= EP_CTRL_SIZE
      modifies this
      ensures View() == OutReceived(old(View()), data, answer)
    {
      if state.HandshakeWaitOutZlp? {
        CtrlEndOfRequest();
        CtrlInit();
        return;
      }
      var n := StorePacket(data);
      if n != EP_CTRL_SIZE || rq.req.wLength <= Plus(prevPayloadNbTrans, payloadNbTrans) {
        CtrlEndOfData(answer);
        return;
      }
      if rq.payloadSize == payloadNbTrans {
        CtrlNextBuffer(answer);
        return;
      }
      ep := ep.(outArmed := true);
    }

    /** The part of udd_ctrl_out_received for the end of the reception. */
    method StorePacket(data: seq<byte>) returns (n: nat)
      requires Words(View()) && |data| <= EP_CTRL_SIZE
      modifies this
      ensures View() == Store(old(View()), data) && n == Kept(old(View()), |data|)
    {
      n := |data|;
      if rq.payloadSize < Plus(payloadNbTrans, n) {
        n := Minus(rq.payloadSize, payloadNbTrans);
      }
      CopyToPayload(data, n);
      payloadNbTrans := Plus(payloadNbTrans, n);
    }

    /** The end of the data stage. */
    method CtrlEndOfData(answer: Answer)
      requires Words(View())
      modifies this
      ensures View() == EndOfData(old(View()), answer)
    {
      rq := rq.(payloadSize := payloadNbTrans);
      if rq.overrun {
        if answer.Decline? {
          CtrlStallData();
          return;
        }
        rq := rq.(payload := answer.buf, payloadSize := answer.size);
      }
      CtrlSendZlpIn();
    }

    /** The part of udd_ctrl_out_received for a full payload buffer. */
    method CtrlNextBuffer(answer: Answer)
      requires Words(View())
      modifies this
      ensures View() == NextBuffer(old(View()), answer)
    {
      if !rq.overrun {
        CtrlStallData();
        return;
      }
      if answer.Decline? {
        CtrlStallData();
        return;
      }
      rq := rq.(payload := answer.buf, payloadSize := answer.size);
      prevPayloadNbTrans := Plus(prevPayloadNbTrans, payloadNbTrans);
      payloadNbTrans := 0;
      ep := ep.(outArmed := true);
    }

    /** memcpy from udd_ctrl_buffer to the payload, which is in bounds or recorded as a fault. */
    method CopyToPayload(data: seq<byte>, n: nat)
      modifies this`rq, this`hist
      ensures View() == CopyIn(old(View()), data, n)
    {
      var at := payloadNbTrans;
      if n <= |data| && at + n <= |rq.payload| && at + n <= rq.payloadSize {
        rq := rq.(payload := rq.payload[..at] + data[..n] + rq.payload[at + n..]);
        hist := hist.(stored := hist.stored + data[..n]);
      } else {
        hist := hist.(fault := true);
      }
    }

    /** udd_ctrl_underflow. */
    method CtrlUnderflow()
      modifies this
      ensures View() == Underflow(old(View()))
    {
      if state.DataOut? {
        CtrlSendZlpIn();
      } else if state.HandshakeWaitOutZlp? {
        ep := ep.(stalled := true);
      }
    }

    /** udd_ctrl_overflow. */
    method CtrlOverflow()
      modifies this
      ensures View() == Overflow(old(View()))
    {
      if state.DataIn? {
        CtrlSendZlpOut();
      } else if state.HandshakeWaitInZlp? {
        ep := ep.(stalled := true);
      }
    }

    /** The control endpoint's part of a bus reset. */
    method BusResetEvent()
      modifies this
      ensures View() == BusReset(old(View()))
    {
      hist := hist.(log := hist.log + [Reset]);
      address := 0;
      ep := ep.(stalled := false);
      ep := ep.(outArmed := false, inArmed := false);
      CtrlInit();
    }

    /** One interrupt, with the hardware's part in it, in any state and for any host: the callback is
        called exactly when it is due and with the fields of its own request, the address changes by
        that call only, the endpoint is stalled exactly for a rejected request, for data that is refused
        and for a broken status stage, and a copy leaves the payload exactly if the packet is stray. */
    method Interrupt(ev: Event)
      requires Valid() && Occurs(View(), ev)
      modifies this
      ensures Valid() && View() == Step(old(View()), ev)
      ensures Recorded(old(View()), ev, View())
      ensures !ev.EvReset? && address != old(address) ==>
        old(rq).callback.SetAddressFn? && IsSetAddress(old(rq).req) && address == old(rq).req.wValue % 0x80
      ensures ep.stalled <==> Stalls(old(View()), ev)
      ensures ev.EvSetup? && ev.n == 8 && ev.decision.Reject? ==> state.StallReq? && ep.stalled
      ensures hist.fault <==> old(hist).fault || Stray(old(View()), ev)
      ensures old(Turns(View())) ==> (Turns(View()) <==> !EarlyStatus(old(View()), ev))
    {
      ghost var c := View();
      Handle(ev);
      StepKeepsLedger(c, ev);
      FiresExactly(c, ev);
      StepSafe(c, ev);
      StalledIff(c, ev);
      if ev.EvSetup? {
        SetupStalls(c, ev.n, ev.req, ev.decision, ev.answer);
      }
      if !ev.EvReset? && address != c.address {
        AddressChanges(c, ev);
      }
      if Turns(c) {
        TurnsIff(c, ev);
      }
    }

    /** The dispatch of USB_BUSEVENT_vect and USB_TRNCOMPL_vect. */
    method Handle(ev: Event)
      requires Words(View()) && Occurs(View(), ev)
      modifies this
      ensures View() == Step(old(View()), ev) && Words(View())
    {
      match ev
      case EvSetup(n, packet, decision, answer) =>
        ep := ep.(outArmed := false, stalled := false);
        CtrlSetupReceived(n, packet, decision, answer);
      case EvInSent(answer) =>
        hist := hist.(wire := hist.wire + [Packet(View())]);
        ep := ep.(inArmed := false);
        CtrlInSent(answer);
      case EvOutReceived(data, answer) =>
        ep := ep.(outArmed := false);
        hist := hist.(host := hist.host + data);
        CtrlOutReceived(data, answer);
      case EvUnderflow => CtrlUnderflow();
      case EvOverflow => CtrlOverflow();
      case EvReset => BusResetEvent();
    }
  }
}
