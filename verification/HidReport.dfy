/** The report endpoint of the HID interface (udi_hid_generic.c): a flag and a report buffer on top
    of the IN endpoint the driver runs. */
module HidReport {
  import opened Packets
  import opened E = EndpointSteps
  import opened EndpointLifecycle
  import opened EndpointCalls
  import opened UddEndpoints

  /** UDI_HID_REPORT_IN_SIZE. */
  const REPORT_SIZE: nat := 2

  type Report = s: seq<byte> | |s| == REPORT_SIZE witness [0, 0]

  /** udi_hid_generic_b_report_in_free, udi_hid_generic_report_in and the IN endpoint. */
  datatype Hid = Hid(free: bool, report: Report, ep: Endpoint)

  /** What can happen: the application sends a report, the core configures the interface, or the
      driver does something to the endpoint. */
  datatype HidEvent = Send(data: Report) | Configure(maxSize: nat) | Driver(ev: E.Event)

  /** udi_hid_generic_send_report_in accepts the report. */
  predicate Accepts(h: Hid, data: Report)
    requires WellSized(h.ep)
  {
    h.free && RunAccepted(h.ep, data)
  }

  /** udi_hid_generic_send_report_in.  The flag is written after udd_ep_run has returned, so it would
      hide a callback called by udd_ep_run itself. */
  function SendReport(h: Hid, data: Report): Hid
    requires WellSized(h.ep)
  {
    if !h.free then h
    else Hid(!RunAccepted(h.ep, data), data, RunJob(h.ep, false, data, true))
  }

  /** udd_ep_alloc and, if it succeeds, udi_hid_generic_enable. */
  function ConfigureIface(h: Hid, maxSize: nat): Hid {
    h.(ep := Alloc(h.ep, Bulk, maxSize), free := h.free || !IsEnabled(h.ep))
  }

  /** A step of the driver; udi_hid_generic_report_in_sent sets the flag. */
  function Drive(h: Hid, ev: E.Event): Hid
    requires WellSized(h.ep) && E.Occurs(h.ep, ev)
  {
    var e := E.Step(h.ep, ev);
    h.(ep := e, free := h.free || |e.hist.calls| > |h.ep.hist.calls|)
  }

  /** Nobody else runs jobs or waits on the endpoint of the interface. */
  predicate HidOccurs(h: Hid, ev: HidEvent) {
    ev.Driver? ==> E.Occurs(h.ep, ev.ev) && ev.ev in {EvFree, EvSetHalt, EvClearHalt, EvAbort, EvSent}
  }

  function HidStep(h: Hid, ev: HidEvent): (r: Hid)
    requires WellSized(h.ep) && HidOccurs(h, ev)
  {
    match ev
    case Send(data) => SendReport(h, data)
    case Configure(maxSize) => ConfigureIface(h, maxSize)
    case Driver(ev) => Drive(h, ev)
  }

  function HidInitial(): Hid { Hid(false, [0, 0], Initial(true)) }

  // ----- single flight

  /** The job of a report that has not been sent yet. */
  predicate InFlight(h: Hid) {
    var c, j := h.ep.ctrl, h.ep.job;
    && j.busy && IsEnabled(h.ep) && !c.stall && !c.nack0
    && j.callback.TransFn? && j.buf == h.report && j.nbTrans == 0 && !j.shortPacket
    && c.cnt == REPORT_SIZE && c.aux == 0 && c.dataPtr == UserBuffer(0) && h.ep.bus.sent == []
  }

  /** At most one report is in flight; it is the content of the buffer; and while the endpoint is
      enabled the flag tells whether one is. */
  predicate SingleFlight(h: Hid) {
    && WellSized(h.ep) && h.ep.dirIn && h.ep.ctrl.epType in {Disabled, Bulk}
    && (h.ep.job.busy ==> InFlight(h))
    && (!h.ep.job.busy ==> h.ep.ctrl.nack0)
    && (IsEnabled(h.ep) ==> (h.free <==> !h.ep.job.busy))
  }

  /** A report in flight needs one transfer, which carries exactly the report. */
  lemma SentReport(h: Hid)
    requires SingleFlight(h) && E.Occurs(h.ep, EvSent)
    ensures var r := Drive(h, EvSent); var e := h.ep;
      && SingleFlight(r) && r.free && r.report == h.report
      && r.ep.hist.ended == e.hist.ended
           + [Record(TransferOk, h.report, REPORT_SIZE, e.bus.(sent := [h.report]))]
  {
    assert Window(h.ep) == h.report;
    var e := HwSent(h.ep);
    assert e.bus.sent == [h.report] && e.ctrl.aux == REPORT_SIZE;
    assert InComplete(e) == Finish(e.(job := e.job.(nbTrans := REPORT_SIZE)), TransferOk, REPORT_SIZE);
  }

  /** An IN job does not complete inside udd_ep_run, so the flag stays false while it runs. */
  lemma SendStarts(h: Hid, data: Report)
    requires SingleFlight(h)
    ensures var r := SendReport(h, data);
      && SingleFlight(r) && (Accepts(h, data) <==> r.ep.job.busy && !h.ep.job.busy)
      && (Accepts(h, data) ==> r.report == data && !r.free)
      && (!Accepts(h, data) ==> r.ep == h.ep && r.free == h.free)
      && r.ep.hist.ended == h.ep.hist.ended && r.ep.hist.calls == h.ep.hist.calls
  {
  }

  /** Whatever ends the job early frees the flag as well. */
  lemma StoppedReport(h: Hid, ev: E.Event)
    requires SingleFlight(h) && ev in {EvFree, EvSetHalt, EvAbort}
    ensures var r := Drive(h, ev); var e := h.ep;
      && SingleFlight(r) && !r.ep.job.busy && r.report == h.report
      && (h.ep.job.busy ==> r.free)
      && r.ep.hist.ended == e.hist.ended +
         (if e.job.busy
          then [Record(TransferAbort, h.report, 0, e.bus)] else [])
  {}

  /** A report is accepted exactly while the endpoint is enabled, not halted and idle. */
  lemma AcceptsIff(h: Hid, data: Report)
    requires SingleFlight(h)
    ensures Accepts(h, data) <==> IsEnabled(h.ep) && !h.ep.ctrl.stall && !h.ep.job.busy
  {}

  /** Once its endpoint is allocated the interface accepts reports; one in use is left alone. */
  lemma ConfiguredAccepts(h: Hid, maxSize: nat, data: Report)
    requires SingleFlight(h)
    ensures var r := ConfigureIface(h, maxSize);
      if IsEnabled(h.ep) then r == h
      else SingleFlight(r) && IsEnabled(r.ep) && r.ep.ctrl.size == EpSize(maxSize) && Accepts(r, data)
  {
    StepKeepsFlight(h, Configure(maxSize));
  }

  /** A halt by the host stops the reports, and the end of the halt lets them go on. */
  lemma HaltedReportsResume(h: Hid, data: Report)
    requires SingleFlight(h) && IsEnabled(h.ep)
    ensures var halted := Drive(h, EvSetHalt); var r := Drive(halted, EvClearHalt);
      && SingleFlight(halted) && !Accepts(halted, data)
      && SingleFlight(r) && Accepts(r, data) && SendReport(r, data).ep.job.busy
  {
    StoppedReport(h, EvSetHalt);
    var halted := Drive(h, EvSetHalt);
    HaltEnds(h.ep);
    HaltEnds(halted.ep);
    StepKeepsFlight(halted, Driver(EvClearHalt));
    SendStarts(Drive(halted, EvClearHalt), data);
    AcceptsIff(Drive(halted, EvClearHalt), data);
  }

  /** Every step keeps one report in flight at most. */
  lemma StepKeepsFlight(h: Hid, ev: HidEvent)
    requires SingleFlight(h) && HidOccurs(h, ev)
    ensures SingleFlight(HidStep(h, ev))
    ensures h.ep.job.busy && HidStep(h, ev).ep.job.busy ==> HidStep(h, ev).report == h.report
  {
    match ev
    case Send(data) => SendStarts(h, data);
    case Configure(maxSize) =>
    case Driver(ev) =>
      if ev == EvSent {
        SentReport(h);
      } else if ev != EvClearHalt {
        StoppedReport(h, ev);
      }
  }

  lemma InitialFlight()
    ensures SingleFlight(HidInitial())
  {}

  ghost predicate HidPossible(h: Hid, evs: seq<HidEvent>)
    decreases |evs|
  {
    |evs| == 0 || (WellSized(h.ep) && HidOccurs(h, evs[0]) && HidPossible(HidStep(h, evs[0]), evs[1..]))
  }

  function HidRun(h: Hid, evs: seq<HidEvent>): Hid
    requires HidPossible(h, evs)
    decreases |evs|
  {
    if |evs| == 0 then h else HidRun(HidStep(h, evs[0]), evs[1..])
  }

  /** Over every run from the start: while the interface is enabled, the flag is false exactly while
      a report is in flight, and no such report ever stops the next one for good: its transfer, an
      abort, a halt or a reconfiguration makes the endpoint accept again. */
  lemma {:induction false} ReportSingleFlight(h: Hid, evs: seq<HidEvent>)
    requires SingleFlight(h) && HidPossible(h, evs)
    ensures var r := HidRun(h, evs);
      && SingleFlight(r)
      && (IsEnabled(r.ep) ==> (!r.free <==> r.ep.job.busy))
      && (!r.free && IsEnabled(r.ep) ==> E.Occurs(r.ep, EvSent) && Drive(r, EvSent).free)
      && (IsEnabled(r.ep) ==> Drive(r, EvAbort).free && Drive(r, EvSetHalt).free)
      && ConfigureIface(Drive(r, EvFree), 8).free
    decreases |evs|
  {
    if |evs| == 0 {
      StoppedReport(h, EvAbort);
      StoppedReport(h, EvSetHalt);
      StoppedReport(h, EvFree);
      if E.Occurs(h.ep, EvSent) {
        SentReport(h);
      }
    } else {
      StepKeepsFlight(h, evs[0]);
      ReportSingleFlight(HidStep(h, evs[0]), evs[1..]);
    }
  }

  // ----- the interface, in place

  class HidGeneric {
    const ep: UddEndpoint
    var free: bool
    var report: Report

    function View(): Hid
      reads this, ep
    {
      Hid(free, report, ep.View())
    }

    ghost predicate Valid()
      reads this, ep
    {
      SingleFlight(View())
    }

    constructor ()
      ensures Valid() && View() == HidInitial() && fresh(ep)
    {
      free, report := false, [0, 0];
      ep := new UddEndpoint(true);
      new;
      InitialFlight();
    }

    /** udi_hid_generic_enable. */
    method Enable()
      modifies this`free
      ensures free
    {
      free := true;
    }

    /** udi_hid_generic_report_in_sent. */
    method ReportInSent()
      modifies this`free
      ensures free
    {
      free := true;
    }

    /** udi_hid_generic_send_report_in. */
    method SendReportIn(data: Report) returns (ok: bool)
      requires Valid()
      modifies this, ep
      ensures Valid() && View() == SendReport(old(View()), data)
      ensures ok == Accepts(old(View()), data)
    {
      SendStarts(View(), data);
      if !free {
        return false;
      }
      report := [0, 0];
      report := data;
      var started := ep.Run(false, report, true);
      free := !started;
      ok := !free;
    }

    /** The part of udc_iface_enable for this interface. */
    method Configure(maxSize: nat) returns (ok: bool)
      requires Valid()
      modifies this, ep
      ensures Valid() && View() == ConfigureIface(old(View()), maxSize)
    {
      StepKeepsFlight(View(), HidEvent.Configure(maxSize));
      ok := ep.Alloc(Bulk, maxSize);
      if ok {
        Enable();
      }
    }

    /** The driver does something to the endpoint, and calls the callback of a job that ends. */
    method DriverStep(ev: E.Event)
      requires Valid() && HidOccurs(View(), Driver(ev))
      modifies this, ep
      ensures Valid() && View() == Drive(old(View()), ev)
    {
      hide RunAccepted, RunJob;
      StepKeepsFlight(View(), Driver(ev));
      ghost var calls := |ep.hist.calls|;
      var busy := ep.job.busy;
      var done;
      match ev {
        case EvFree => ep.Free();
        case EvSetHalt => done := ep.SetHalt();
        case EvClearHalt => done := ep.ClearHalt();
        case EvAbort => ep.Abort();
        case EvSent => ep.Sent();
      }
      if busy && !ep.job.busy {
        assert |ep.hist.calls| > calls;
        ReportInSent();
      }
    }
  }
}
