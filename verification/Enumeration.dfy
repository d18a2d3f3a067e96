/** The control endpoint (usb_device.c) and the device core (udc.c) together: the core asks the driver
    for the address, and the decoder answers the SETUP packets of the control endpoint. */
module Enumeration {
  import opened ControlSteps
  import opened ControlCallbacks
  import opened UdcConfiguration
  import opened SetupRequests
  import opened SetupDecoder
  import opened UddControl
  import opened ControlData
  import opened ControlSafety

  datatype Stack = Stack(control: Control, core: Core)

  /** An interrupt; for a SETUP packet, what the decoder's answer depends on; and the core afterwards. */
  datatype Happening = Happening(ev: Event, facts: Facts, core: Core)

  /** The core when a SETUP packet is decoded: the end of the request before it has been noted. */
  function Decoding(s: Stack): Core {
    s.core.(address := Fresh(HwSetup(s.control)).address)
  }

  /** A SETUP packet is answered as in the table, with that effect on the core; a bus reset leaves no
      configuration selected; no other interrupt reaches the core. */
  ghost predicate Happens(s: Stack, h: Happening)
    requires CoreOk(s.core)
  {
    && Occurs(s.control, h.ev) && CoreOk(h.core)
    && match h.ev
       case EvSetup(n, req, decision, _) =>
         if n != 8 then h.core == s.core
         else
           && FactsOk(h.facts) && h.facts.core == Decoding(s) && AsTable(h.facts, req, decision)
           && CoreEffect(Decoding(s), h.core, req, h.facts.drv.udiOk, decision.Accept?)
       case EvReset => h.core.numConfiguration == 0
       case _ => h.core == s.core
  }

  function After(s: Stack, h: Happening): Stack
    requires Words(s.control) && Occurs(s.control, h.ev)
  {
    Stack(Step(s.control, h.ev), h.core)
  }

  ghost predicate AllHappen(s: Stack, hs: seq<Happening>)
    requires Words(s.control) && CoreOk(s.core)
    decreases |hs|
  {
    |hs| == 0 || (Happens(s, hs[0]) && AllHappen(After(s, hs[0]), hs[1..]))
  }

  function AfterAll(s: Stack, hs: seq<Happening>): (r: Stack)
    requires Words(s.control) && CoreOk(s.core) && AllHappen(s, hs)
    ensures Words(r.control) && CoreOk(r.core)
    decreases |hs|
  {
    if |hs| == 0 then s else AfterAll(After(s, hs[0]), hs[1..])
  }

  // ----- what the log says about the address

  /** The status stage of a SET_ADDRESS with a non-zero address. */
  predicate Addresses(e: Entry) {
    e.Fired? && e.callback.SetAddressFn? && e.req.wValue % 0x80 != 0
  }

  /** Neither a bus reset nor another SET_ADDRESS has come after entry i. */
  predicate DecidesAddress(log: seq<Entry>, i: nat)
    requires i < |log|
  {
    Addresses(log[i]) && forall j :: i < j < |log| ==> log[j].Fired? && !log[j].callback.SetAddressFn?
  }

  ghost predicate AddressDecided(log: seq<Entry>) {
    exists i: nat :: i < |log| && DecidesAddress(log, i)
  }

  /** The address is not zero exactly if such an entry decides it. */
  lemma {:induction false} AddressFromIff(log: seq<Entry>)
    ensures AddressFrom(log) != 0 <==> AddressDecided(log)
    decreases |log|
  {
    if |log| > 0 {
      var n, front := |log| - 1, log[..|log| - 1];
      AddressFromIff(front);
      if Addresses(log[n]) {
        assert DecidesAddress(log, n);
      } else if log[n].Fired? && !log[n].callback.SetAddressFn? {
        assert log == front + [log[n]];
        DecidedBefore(front, log[n]);
      }
    }
  }

  lemma DecidedBefore(front: seq<Entry>, e: Entry)
    requires e.Fired? && !e.callback.SetAddressFn?
    ensures AddressDecided(front + [e]) <==> AddressDecided(front)
  {
    var log := front + [e];
    forall i: nat | i < |front| ensures DecidesAddress(front, i) <==> DecidesAddress(log, i) {
      assert log[|front|] == e;
      assert forall j :: 0 <= j < |front| ==> front[j] == log[j];
    }
    assert !DecidesAddress(log, |front|);
  }

  /** Since the last bus reset such a status stage has come, that of the request it quotes. */
  ghost predicate Addressed(log: seq<Entry>) {
    exists i: nat :: i < |log| && Addresses(log[i]) && NoReset(log, i) && IsSetAddress(log[i].req)
  }

  predicate NoReset(log: seq<Entry>, i: nat) {
    forall j :: i < j < |log| ==> !log[j].Reset?
  }

  lemma AddressedGrows(log: seq<Entry>, e: Entry)
    requires Addressed(log) && e.Fired?
    ensures Addressed(log + [e])
  {
    var i: nat :| i < |log| && Addresses(log[i]) && NoReset(log, i) && IsSetAddress(log[i].req);
    assert (log + [e])[i] == log[i] && NoReset(log + [e], i);
  }

  /** The log accounts for the address. */
  lemma LedgerAddressed(c: Control)
    requires Ledger(c) && c.address != 0
    ensures Addressed(c.hist.log)
  {
    AddressFromIff(c.hist.log);
    var log := c.hist.log;
    var i: nat :| i < |log| && DecidesAddress(log, i);
    assert Genuine(c.hist.requests, c.hist.callbacks, log[i]) && NoReset(log, i);
  }

  // ----- one step, and every run

  /** A configuration is selected only by a SET_CONFIGURATION that is decoded while the address is not
      zero. */
  lemma SelectionNeedsAddress(s: Stack, h: Happening)
    requires CoreOk(s.core) && Words(s.control) && Happens(s, h)
    requires s.core.numConfiguration == 0 < h.core.numConfiguration
    ensures h.ev.EvSetup? && h.ev.n == 8 && h.ev.req.bmRequestType == 0 && h.ev.req.bRequest == 9
    ensures Decoding(s).address != 0 && h.core.numConfiguration == h.ev.req.wValue % 256
  {
    hide AsTable, FactsOk, Fresh, SetConfAccepted, Selected;
  }

  /** A configuration is in use only once the device has been addressed. */
  ghost predicate Enumerated(s: Stack) {
    && Ledger(s.control) && CoreOk(s.core)
    && (s.core.numConfiguration > 0 ==> Addressed(s.control.hist.log))
  }

  lemma StepKeepsEnumerated(s: Stack, h: Happening)
    requires Enumerated(s) && Happens(s, h)
    ensures Enumerated(After(s, h))
  {
    hide AsTable, CoreEffect, Step, Addressed, Decoding, FactsOk;
    StepKeepsLedger(s.control, h.ev);
    if h.core.numConfiguration > 0 {
      if s.core.numConfiguration == 0 {
        SelectionAddressed(s, h);
      } else {
        StaysAddressed(s.control, h.ev);
      }
    }
  }

  lemma SelectionAddressed(s: Stack, h: Happening)
    requires Ledger(s.control) && CoreOk(s.core) && Happens(s, h)
    requires s.core.numConfiguration == 0 < h.core.numConfiguration
    ensures Addressed(Step(s.control, h.ev).hist.log)
  {
    hide AsTable, CoreEffect, Step, Addressed, FactsOk, Fresh;
    SelectionNeedsAddress(s, h);
    DecodedAddress(s.control, h.ev);
    StepKeepsLedger(s.control, h.ev);
    LedgerAddressed(Step(s.control, h.ev));
  }

  lemma StaysAddressed(c: Control, ev: Event)
    requires Words(c) && Occurs(c, ev) && !ev.EvReset? && Addressed(c.hist.log)
    ensures Addressed(Step(c, ev).hist.log)
  {
    hide Addressed, Step;
    FiresExactly(c, ev);
    if Fires(c, ev) {
      AddressedGrows(c.hist.log, Fired(|c.hist.requests| - 1, c.rq.callback, c.rq.req));
    } else {
      assert Step(c, ev).hist.log == c.hist.log;
    }
  }

  /** Decoding a SETUP packet does not move the address any more. */
  lemma DecodedAddress(c: Control, ev: Event)
    requires Words(c) && Occurs(c, ev) && ev.EvSetup?
    ensures Step(c, ev).address == Fresh(HwSetup(c)).address
  {
    SetupFires(HwSetup(c), ev.n, ev.req, ev.decision, ev.answer);
  }

  /** Over every run, whatever the host sends: while a configuration is in use, the status stage of a
      SET_ADDRESS with a non-zero address has come since the last bus reset. */
  lemma {:induction false} RunKeepsEnumerated(s: Stack, hs: seq<Happening>)
    requires Enumerated(s) && AllHappen(s, hs)
    ensures Enumerated(AfterAll(s, hs))
    decreases |hs|
  {
    if |hs| > 0 {
      StepKeepsEnumerated(s, hs[0]);
      RunKeepsEnumerated(After(s, hs[0]), hs[1..]);
    }
  }

  lemma InitialEnumerated(core: Core)
    requires CoreOk(core) && core.numConfiguration == 0
    ensures Enumerated(Stack(Initial(), core))
  {
    InitialLedger();
  }

  // ----- the routines of both layers

  class UsbDevice {
    const control: ControlEndpoint
    const decoder: Decoder

    ghost predicate Valid()
      reads control, decoder, decoder.core
    {
      control.Valid() && decoder.Valid() && Enumerated(View())
    }

    ghost function View(): (s: Stack)
      requires decoder.Ready()
      reads control, decoder, decoder.core
      ensures CoreOk(s.core)
    {
      Stack(control.View(), decoder.core.View())
    }

    constructor (control: ControlEndpoint, decoder: Decoder)
      requires control.Valid() && decoder.Valid() && decoder.core.numConfiguration == 0
      ensures Valid() && this.control == control && this.decoder == decoder
    {
      this.control, this.decoder := control, decoder;
    }

    /** A SETUP packet. */
    method Setup(n: nat, packet: Request, answer: Answer, drv: Driver) returns (ghost h: Happening)
      requires Valid() && RequestOk(packet) && AnswerOk(answer)
      modifies control, decoder, decoder.core
      ensures Happens(old(View()), h) && h.ev.EvSetup? && h.ev == EvSetup(n, packet, h.ev.decision, answer)
      ensures Valid() && View() == After(old(View()), h)
    {
      ghost var s := View();
      h := Received(n, packet, answer, drv);
      StepKeepsEnumerated(s, h);
      StepSafe(s.control, h.ev);
    }

    /** udd_ctrl_setup_received, which calls udc_process_setup. */
    method Received(n: nat, packet: Request, answer: Answer, drv: Driver) returns (ghost h: Happening)
      requires Words(control.View()) && decoder.Valid() && RequestOk(packet) && AnswerOk(answer)
      modifies control, decoder, decoder.core
      ensures Happens(old(View()), h) && h.ev.EvSetup? && h.ev == EvSetup(n, packet, h.ev.decision, answer)
      ensures decoder.Valid() && View() == After(old(View()), h)
    {
      hide Fresh, ControlSteps.Received, Decided, AsTable, CoreEffect, FactsOk, CoreOk;
      control.ep := control.ep.(outArmed := false, stalled := false);
      control.CtrlStartAfresh();
      var d := Reject;
      ghost var facts := decoder.View();
      if n == 8 {
        d, facts := Decode(packet, drv);
        control.CtrlReceived(packet);
        control.CtrlDecided(packet, d, answer);
      }
      h := Happening(EvSetup(n, packet, d, answer), facts, decoder.core.View());
    }

    /** udc_process_setup, with the address the driver has then. */
    method Decode(packet: Request, drv: Driver) returns (d: Decision, ghost facts: Facts)
      requires decoder.Valid() && RequestOk(packet)
      modifies decoder, decoder.core
      ensures decoder.Valid() && FactsOk(facts) && facts.core == old(decoder.core.View()).(address := control.address)
      ensures AsTable(facts, packet, d) && DecisionOk(packet, d)
      ensures CoreEffect(facts.core, decoder.core.View(), packet, facts.drv.udiOk, d.Accept?)
    {
      decoder.core.address := control.address;
      decoder.req, decoder.drv := packet, drv;
      facts := decoder.View();
      d := decoder.ProcessSetup();
    }

    /** A bus reset reaches both layers. */
    method BusReset() returns (ghost h: Happening)
      requires Valid()
      modifies control, decoder.core
      ensures Happens(old(View()), h) && h.ev == EvReset
      ensures Valid() && View() == After(old(View()), h)
    {
      hide AsTable, CoreEffect, FactsOk, Step, Addressed, Recorded, Stray, EarlyStatus;
      ghost var s := View();
      decoder.core.Reset();
      control.Interrupt(EvReset);
      h := Happening(EvReset, decoder.View(), decoder.core.View());
      StepKeepsEnumerated(s, h);
    }

    /** The other interrupts reach the control endpoint only. */
    method Interrupt(ev: Event) returns (ghost h: Happening)
      requires Valid() && Occurs(control.View(), ev) && !ev.EvSetup? && !ev.EvReset?
      modifies control
      ensures Happens(old(View()), h) && h.ev == ev
      ensures Valid() && View() == After(old(View()), h)
    {
      hide AsTable, CoreEffect, FactsOk, Step, Addressed, Recorded, Turns, Stray, EarlyStatus;
      ghost var s := View();
      control.Interrupt(ev);
      h := Happening(ev, decoder.View(), decoder.core.View());
      StepKeepsEnumerated(s, h);
    }
  }
}
