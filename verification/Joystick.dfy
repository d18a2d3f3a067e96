/** The joystick task (joystick.c): two touch sliders are sampled and a report is sent when the
    sample has changed. */
module Joystick {
  import opened Packets
  import opened E = EndpointSteps
  import opened HidReport

  const SLIDER_COUNT: nat := 12
  const CENTER: byte := 128
  const IDX2AXIS: seq<byte> := [0, 23, 46, 69, 92, 116, 139, 162, 185, 208, 231, 255]

  // ----- the sliders

  /** A pad is touched while its bit is low. */
  predicate Touched(bits: bv16, i: nat)
    requires i < SLIDER_COUNT
  {
    bits & ((1 as bv16) << i) == 0
  }

  /** A slider position, or -1 without contact. */
  type Index = i: int | -1 <= i < SLIDER_COUNT

  /** The lowest touched pad from i on. */
  function FirstTouched(bits: bv16, i: nat): (r: Index)
    requires i <= SLIDER_COUNT
    ensures r >= 0 ==> i <= r && Touched(bits, r) && forall j :: i <= j < r ==> !Touched(bits, j)
    ensures r < 0 ==> forall j :: i <= j < SLIDER_COUNT ==> !Touched(bits, j)
    decreases SLIDER_COUNT - i
  {
    if i == SLIDER_COUNT then -1 else if Touched(bits, i) then i else FirstTouched(bits, i + 1)
  }

  /** jstk_scan. */
  method Scan(bits: bv16) returns (r: Index)
    ensures r == FirstTouched(bits, 0)
  {
    for i := 0 to SLIDER_COUNT
      invariant FirstTouched(bits, 0) == FirstTouched(bits, i)
    {
      if bits & ((1 as bv16) << i) == 0 {
        return i;
      }
    }
    r := -1;
  }

  /** jstk_idxToAxis. */
  function IdxToAxis(idx: Index): byte {
    if idx < 0 then CENTER else IDX2AXIS[idx]
  }

  /** The axis goes from end to end in almost equal steps. */
  lemma AxisIsLinear(i: nat, j: nat)
    requires i < j < SLIDER_COUNT
    ensures IDX2AXIS[0] == 0 && IDX2AXIS[SLIDER_COUNT - 1] == 255 && IDX2AXIS[i] < IDX2AXIS[j]
    ensures -11 < 11 * IDX2AXIS[i] - 255 * i < 11
  {}

  /** No two positions have the same axis value, nor has one that of no contact. */
  lemma AxisIsInjective(i: Index, j: Index)
    ensures IdxToAxis(i) == IdxToAxis(j) <==> i == j
  {}

  function Sample(x: Index, y: Index): Report { [IdxToAxis(x), IdxToAxis(y)] }

  lemma SampleIsInjective(x: Index, y: Index, x': Index, y': Index)
    ensures Sample(x, y) == Sample(x', y') <==> x == x' && y == y'
  {
    AxisIsInjective(x, x');
    AxisIsInjective(y, y');
    assert Sample(x, y)[0] == IdxToAxis(x) && Sample(x', y')[0] == IdxToAxis(x');
    assert Sample(x, y)[1] == IdxToAxis(y) && Sample(x', y')[1] == IdxToAxis(y');
  }

  // ----- the report stream

  /** jstk_prevReport and the interface; and for the specification the reports accepted so far, with
      the slider positions of the last one. */
  datatype Stick = Stick(prev: Report, hid: Hid, accepted: seq<Report>, x: Index, y: Index)

  datatype StickEvent = Tick(x: Index, y: Index) | Usb(ev: HidEvent)

  /** jstk_usbTask with the sliders at x and y. */
  function UsbTask(s: Stick, x: Index, y: Index): Stick
    requires WellSized(s.hid.ep)
  {
    var sample := Sample(x, y);
    if sample == s.prev then s
    else
      var hid := SendReport(s.hid, sample);
      if Accepts(s.hid, sample) then Stick(sample, hid, s.accepted + [sample], x, y) else s.(hid := hid)
  }

  predicate StickOccurs(s: Stick, ev: StickEvent) {
    ev.Usb? ==> HidOccurs(s.hid, ev.ev) && !ev.ev.Send?
  }

  function StickStep(s: Stick, ev: StickEvent): Stick
    requires WellSized(s.hid.ep) && StickOccurs(s, ev)
  {
    match ev
    case Tick(x, y) => UsbTask(s, x, y)
    case Usb(ev) => s.(hid := HidStep(s.hid, ev))
  }

  function StickInitial(): Stick { Stick(CENTERED, HidInitial(), [], -1, -1) }

  const CENTERED: Report := [CENTER, CENTER]

  /** The element before element i, where first is the one before all. */
  function Before<T>(first: T, s: seq<T>, i: nat): T
    requires i <= |s|
  {
    if i == 0 then first else s[i - 1]
  }

  ghost predicate Different<T>(first: T, s: seq<T>) {
    forall i :: 0 <= i < |s| ==> s[i] != Before(first, s, i)
  }

  lemma DifferentAppend<T>(first: T, s: seq<T>, next: T)
    requires Different(first, s) && next != Before(first, s, |s|)
    ensures Different(first, s + [next]) && Before(first, s + [next], |s| + 1) == next
  {
    var all := s + [next];
    forall i | 0 <= i < |all| ensures all[i] != Before(first, all, i) {
      assert Before(first, all, i) == Before(first, s, i);
    }
  }

  function Bufs(records: seq<Record>): (r: seq<seq<byte>>)
    ensures |r| == |records|
  {
    if records == [] then [] else Bufs(records[..|records| - 1]) + [records[|records| - 1].buf]
  }

  /** The transfers the host has received, over all jobs. */
  function Host(records: seq<Record>): seq<seq<byte>> {
    if records == [] then [] else Host(records[..|records| - 1]) + records[|records| - 1].bus.sent
  }

  /** A report that was sent, or one that was given up before. */
  predicate AllOrNothing(r: Record) {
    r.bus.sent == if r.status.TransferOk? then [r.buf] else []
  }

  /** The accepted reports are the jobs that have ended, in order, and the one in flight. */
  ghost predicate Jobs(accepted: seq<Report>, ended: seq<Record>, busy: bool, report: Report) {
    && accepted == Bufs(ended) + (if busy then [report] else [])
    && forall i :: 0 <= i < |ended| ==> AllOrNothing(ended[i])
  }

  /** Each accepted report differs from the one before, and the last one is remembered. */
  ghost predicate Changing(prev: Report, accepted: seq<Report>, x: Index, y: Index) {
    prev == Before(CENTERED, accepted, |accepted|) == Sample(x, y) && Different(CENTERED, accepted)
  }

  ghost predicate Stream(s: Stick) {
    && SingleFlight(s.hid) && Changing(s.prev, s.accepted, s.x, s.y)
    && Jobs(s.accepted, s.hid.ep.hist.ended, s.hid.ep.job.busy, s.hid.report)
  }

  /** The endpoint can take a report. */
  predicate Ready(h: Hid) {
    IsEnabled(h.ep) && !h.ep.ctrl.stall && !h.ep.job.busy
  }

  /** A report is accepted exactly when a slider has moved since the last one and the endpoint can
      take it; then, and when nothing has moved, the last accepted report is the current sample. */
  lemma TickSpec(s: Stick, x: Index, y: Index)
    requires Stream(s)
    ensures var r := UsbTask(s, x, y); var moved := (x, y) != (s.x, s.y);
      && Stream(r)
      && (|r.accepted| > |s.accepted| <==> moved && Ready(s.hid))
      && (r.prev == Sample(x, y) <==> Ready(s.hid) || !moved)
      && (!(moved && Ready(s.hid)) ==> r.prev == s.prev && r.accepted == s.accepted && r.hid.ep == s.hid.ep)
  {
    SampleIsInjective(x, y, s.x, s.y);
    TickSends(s, x, y);
  }

  /** An accepted report is the current sample, and is the job in progress. */
  lemma TickPictures(s: Stick, x: Index, y: Index)
    requires Stream(s)
    ensures var r := UsbTask(s, x, y);
      if Accepts(s.hid, Sample(x, y)) && Sample(x, y) != s.prev
      then r.accepted == s.accepted + [r.prev] && r.prev == Sample(x, y) == r.hid.ep.job.buf && r.hid.ep.job.busy
      else r.accepted == s.accepted && r.prev == s.prev
    ensures Sample(x, y) != s.prev && s.hid.free ==> UsbTask(s, x, y).hid.report == Sample(x, y)
  {
    SendStarts(s.hid, Sample(x, y));
  }

  lemma TickSends(s: Stick, x: Index, y: Index)
    requires Stream(s)
    ensures Stream(UsbTask(s, x, y)) && (Accepts(s.hid, Sample(x, y)) <==> Ready(s.hid))
    ensures !Ready(s.hid) ==> UsbTask(s, x, y) == s.(hid := UsbTask(s, x, y).hid) && UsbTask(s, x, y).hid.ep == s.hid.ep
  {
    var sample := Sample(x, y);
    SendStarts(s.hid, sample);
    if sample != s.prev {
      ChangingAppend(s.prev, s.accepted, s.x, s.y, x, y);
      if !s.hid.ep.job.busy {
        JobStarts(s.accepted, s.hid.ep.hist.ended, s.hid.report, sample);
      }
    }
  }

  lemma ChangingAppend(prev: Report, accepted: seq<Report>, x: Index, y: Index, x': Index, y': Index)
    requires Changing(prev, accepted, x, y) && Sample(x', y') != prev
    ensures Changing(Sample(x', y'), accepted + [Sample(x', y')], x', y')
  {
    DifferentAppend(CENTERED, accepted, Sample(x', y'));
  }

  lemma JobStarts(accepted: seq<Report>, ended: seq<Record>, report: Report, next: Report)
    requires Jobs(accepted, ended, false, report)
    ensures Jobs(accepted, ended, false, next) && Jobs(accepted + [next], ended, true, next)
  {}

  lemma BufsAppend(records: seq<Record>, r: Record)
    ensures Bufs(records + [r]) == Bufs(records) + [r.buf]
    ensures Host(records + [r]) == Host(records) + r.bus.sent
  {
    assert (records + [r])[..|records|] == records;
  }

  /** The end of the job in flight moves its report to the ended jobs. */
  lemma JobEnds(accepted: seq<Report>, ended: seq<Record>, report: Report, r: Record)
    requires Jobs(accepted, ended, true, report) && r.buf == report && AllOrNothing(r)
    ensures Jobs(accepted, ended + [r], false, report)
  {
    BufsAppend(ended, r);
  }

  lemma SentKeepsJobs(h: Hid, accepted: seq<Report>)
    requires SingleFlight(h) && E.Occurs(h.ep, EvSent)
    requires Jobs(accepted, h.ep.hist.ended, h.ep.job.busy, h.report)
    ensures var r := Drive(h, EvSent); Jobs(accepted, r.ep.hist.ended, r.ep.job.busy, r.report)
  {
    SentReport(h);
    var e := h.ep;
    JobEnds(accepted, e.hist.ended, h.report,
            Record(TransferOk, h.report, REPORT_SIZE, e.bus.(sent := [h.report])));
  }

  lemma StopKeepsJobs(h: Hid, accepted: seq<Report>, ev: E.Event)
    requires SingleFlight(h) && ev in {EvFree, EvSetHalt, EvAbort}
    requires Jobs(accepted, h.ep.hist.ended, h.ep.job.busy, h.report)
    ensures var r := Drive(h, ev);
      && Jobs(accepted, r.ep.hist.ended, r.ep.job.busy, r.report)
      && Host(r.ep.hist.ended) == Host(h.ep.hist.ended)
  {
    StoppedReport(h, ev);
    var e := h.ep;
    if e.job.busy {
      var record := Record(TransferAbort, h.report, 0, e.bus);
      JobEnds(accepted, e.hist.ended, h.report, record);
      BufsAppend(e.hist.ended, record);
    }
  }

  /** What the bus does to the endpoint keeps the stream. */
  lemma UsbKeepsStream(s: Stick, ev: HidEvent)
    requires Stream(s) && StickOccurs(s, Usb(ev))
    ensures Stream(StickStep(s, Usb(ev)))
  {
    StepKeepsFlight(s.hid, ev);
    if ev.Driver? {
      if ev.ev == EvSent {
        SentKeepsJobs(s.hid, s.accepted);
      } else if ev.ev != EvClearHalt {
        StopKeepsJobs(s.hid, s.accepted, ev.ev);
      }
    }
  }

  ghost predicate StickPossible(s: Stick, evs: seq<StickEvent>)
    decreases |evs|
  {
    |evs| == 0 || (WellSized(s.hid.ep) && StickOccurs(s, evs[0]) && StickPossible(StickStep(s, evs[0]), evs[1..]))
  }

  function StickRun(s: Stick, evs: seq<StickEvent>): Stick
    requires StickPossible(s, evs)
    decreases |evs|
  {
    if |evs| == 0 then s else StickRun(StickStep(s, evs[0]), evs[1..])
  }

  /** Over every run of ticks and endpoint events. */
  lemma {:induction false} RunKeepsStream(s: Stick, evs: seq<StickEvent>)
    requires Stream(s) && StickPossible(s, evs)
    ensures Stream(StickRun(s, evs))
    decreases |evs|
  {
    if |evs| > 0 {
      match evs[0] {
        case Tick(x, y) => TickSpec(s, x, y);
        case Usb(ev) => UsbKeepsStream(s, ev);
      }
      RunKeepsStream(StickStep(s, evs[0]), evs[1..]);
    }
  }

  lemma InitialStream()
    ensures Stream(StickInitial())
  {
    InitialFlight();
  }

  // ----- what the host sees

  ghost predicate NoneLost(records: seq<Record>) {
    forall i :: 0 <= i < |records| ==> records[i].status.TransferOk?
  }

  /** Every report the host has received was accepted, and while none is in flight it has received
      all of them exactly if no job was aborted. */
  lemma {:induction false} HostSeesAllIff(records: seq<Record>)
    requires forall i :: 0 <= i < |records| ==> AllOrNothing(records[i])
    ensures |Host(records)| <= |records|
    ensures Host(records) == Bufs(records) <==> NoneLost(records)
    ensures |Host(records)| == |records| <==> NoneLost(records)
    decreases |records|
  {
    if records != [] {
      var init, last := records[..|records| - 1], records[|records| - 1];
      HostSeesAllIff(init);
      assert NoneLost(records) <==> NoneLost(init) && last.status.TransferOk? by {
        assert records == init + [last];
      }
      if last.status.TransferOk? {
        assert Host(records) == Host(init) + [last.buf];
        if Host(records) == Bufs(records) {
          assert Host(init) == Bufs(records)[..|init|] == Bufs(init);
        }
      } else {
        assert Host(records) == Host(init);
      }
    }
  }

  /** At rest the host has all accepted reports, ending with the current one, unless one was aborted. */
  lemma HostUpToDate(s: Stick)
    requires Stream(s) && !s.hid.ep.job.busy
    ensures Host(s.hid.ep.hist.ended) == s.accepted <==> NoneLost(s.hid.ep.hist.ended)
  {
    HostSeesAllIff(s.hid.ep.hist.ended);
  }

  /** A report that is aborted after it was accepted is never sent again: as long as the sliders stay
      where they are, jstk_usbTask does nothing, and the host does not learn the position. */
  lemma {:induction false} AbortedReportIsLost(s: Stick, x: Index, y: Index, n: nat)
    requires Stream(s) && (x, y) != (s.x, s.y) && Ready(s.hid)
    ensures var evs := [Tick(x, y), Usb(Driver(EvAbort))] + Repeat(Tick(x, y), n);
      && StickPossible(s, evs)
      && var r := StickRun(s, evs);
      && r.prev == Sample(x, y) && Ready(r.hid)
      && Host(r.hid.ep.hist.ended) == Host(s.hid.ep.hist.ended)
  {
    AcceptedThenAborted(s, x, y);
    var s2 := UsbTask(s, x, y).(hid := Drive(UsbTask(s, x, y).hid, EvAbort));
    IdleTicks(s2, x, y, n);
    TwoSteps(s, Tick(x, y), Usb(Driver(EvAbort)), Repeat(Tick(x, y), n));
  }

  lemma AcceptedThenAborted(s: Stick, x: Index, y: Index)
    requires Stream(s) && (x, y) != (s.x, s.y) && Ready(s.hid)
    ensures var s1 := UsbTask(s, x, y);
      && WellSized(s1.hid.ep) && s1.prev == Sample(x, y)
      && var h := Drive(s1.hid, EvAbort);
      && WellSized(h.ep) && Ready(h) && Host(h.ep.hist.ended) == Host(s.hid.ep.hist.ended)
  {
    AcceptedTick(s, x, y);
    var s1 := UsbTask(s, x, y);
    AbortedHost(s1.hid, s1.accepted);
  }

  lemma AbortedHost(h: Hid, accepted: seq<Report>)
    requires SingleFlight(h) && InFlight(h) && Jobs(accepted, h.ep.hist.ended, h.ep.job.busy, h.report)
    ensures var r := Drive(h, EvAbort);
      WellSized(r.ep) && Ready(r) && Host(r.ep.hist.ended) == Host(h.ep.hist.ended)
  {
    StopKeepsJobs(h, accepted, EvAbort);
    AbortReady(h);
  }

  lemma AcceptedTick(s: Stick, x: Index, y: Index)
    requires Stream(s) && (x, y) != (s.x, s.y) && Ready(s.hid)
    ensures var r := UsbTask(s, x, y);
      && Stream(r) && InFlight(r.hid) && r.prev == Sample(x, y) && r.hid.ep.hist.ended == s.hid.ep.hist.ended
  {
    TickSpec(s, x, y);
    SampleIsInjective(x, y, s.x, s.y);
    SendStarts(s.hid, Sample(x, y));
  }

  lemma AbortReady(h: Hid)
    requires SingleFlight(h) && InFlight(h)
    ensures Ready(Drive(h, EvAbort))
  {}

  lemma TwoSteps(s: Stick, a: StickEvent, b: StickEvent, evs: seq<StickEvent>)
    requires WellSized(s.hid.ep) && StickOccurs(s, a)
    requires WellSized(StickStep(s, a).hid.ep) && StickOccurs(StickStep(s, a), b)
    requires StickPossible(StickStep(StickStep(s, a), b), evs)
    ensures StickPossible(s, [a, b] + evs)
    ensures StickRun(s, [a, b] + evs) == StickRun(StickStep(StickStep(s, a), b), evs)
  {
    var all, rest := [a, b] + evs, [b] + evs;
    assert all[1..] == rest && rest[1..] == evs;
    assert StickPossible(StickStep(s, a), rest);
  }

  lemma {:induction false} IdleTicks(s: Stick, x: Index, y: Index, n: nat)
    requires WellSized(s.hid.ep) && s.prev == Sample(x, y)
    ensures StickPossible(s, Repeat(Tick(x, y), n)) && StickRun(s, Repeat(Tick(x, y), n)) == s
    decreases n
  {
    if n > 0 {
      IdleTicks(s, x, y, n - 1);
      assert Repeat(Tick(x, y), n)[1..] == Repeat(Tick(x, y), n - 1);
    }
  }

  // ----- jstk_usbTask, in place

  /** jstk_readVertRaw: C2-C7 and D0-D5. */
  function VertRaw(portC: bv8, portD: bv8): bv16 {
    ((((portD as bv16) << 8) | (portC as bv16)) >> 2) & 0x0FFF
  }

  /** jstk_readHoriRaw: E0-E7 and B0-B3. */
  function HoriRaw(portE: bv8, portB: bv8): bv16 {
    (((portB as bv16) << 8) | (portE as bv16)) & 0x0FFF
  }

  /** A pin of a port is low. */
  predicate Low(port: bv8, pin: nat)
    requires pin < 8
  {
    port & ((1 as bv8) << pin) == 0
  }

  /** The horizontal pads are on E0-E7 and B0-B3. */
  predicate HoriPad(portE: bv8, portB: bv8, i: nat)
    requires i < SLIDER_COUNT
  {
    if i < 8 then Low(portE, i) else Low(portB, i - 8)
  }

  /** The vertical pads are on C2-C7 and D0-D5. */
  predicate VertPad(portC: bv8, portD: bv8, i: nat)
    requires i < SLIDER_COUNT
  {
    if i < 6 then Low(portC, i + 2) else Low(portD, i - 6)
  }

  /** Every pad is read from a pin of its own. */
  lemma PadsAndPins(portB: bv8, portC: bv8, portD: bv8, portE: bv8, i: nat)
    requires i < SLIDER_COUNT
    ensures Touched(VertRaw(portC, portD), i) <==> VertPad(portC, portD, i)
    ensures Touched(HoriRaw(portE, portB), i) <==> HoriPad(portE, portB, i)
  {
    if
    case i == 0 =>
    case i == 1 =>
    case i == 2 =>
    case i == 3 =>
    case i == 4 =>
    case i == 5 =>
    case i == 6 =>
    case i == 7 =>
    case i == 8 =>
    case i == 9 =>
    case i == 10 =>
    case i == 11 =>
  }

  /** The slider positions that the ports show. */
  function HoriIndex(portE: bv8, portB: bv8): Index { FirstTouched(HoriRaw(portE, portB), 0) }

  function VertIndex(portC: bv8, portD: bv8): Index { FirstTouched(VertRaw(portC, portD), 0) }

  /** A byte of the report says where a slider is touched: at its lowest pad that is low, or not at all. */
  ghost predicate Shows(v: byte, low: seq<bool>)
    requires |low| == SLIDER_COUNT
  {
    && ((forall i :: 0 <= i < SLIDER_COUNT ==> !low[i]) ==> v == 128)
    && forall i :: 0 <= i < SLIDER_COUNT && low[i] && (forall j :: 0 <= j < i ==> !low[j]) ==> v == IDX2AXIS[i]
  }

  ghost function HoriPads(portE: bv8, portB: bv8): (s: seq<bool>)
    ensures |s| == SLIDER_COUNT
  {
    seq(SLIDER_COUNT, i requires 0 <= i < SLIDER_COUNT => HoriPad(portE, portB, i))
  }

  ghost function VertPads(portC: bv8, portD: bv8): (s: seq<bool>)
    ensures |s| == SLIDER_COUNT
  {
    seq(SLIDER_COUNT, i requires 0 <= i < SLIDER_COUNT => VertPad(portC, portD, i))
  }

  /** Byte 0 is the horizontal slider and byte 1 the vertical one. */
  ghost predicate Pictures(report: Report, portB: bv8, portC: bv8, portD: bv8, portE: bv8) {
    Shows(report[0], HoriPads(portE, portB)) && Shows(report[1], VertPads(portC, portD))
  }

  lemma SamplePictures(portB: bv8, portC: bv8, portD: bv8, portE: bv8)
    ensures Pictures(Sample(HoriIndex(portE, portB), VertIndex(portC, portD)), portB, portC, portD, portE)
  {
    forall i | 0 <= i < SLIDER_COUNT
      ensures Touched(HoriRaw(portE, portB), i) == HoriPads(portE, portB)[i]
      ensures Touched(VertRaw(portC, portD), i) == VertPads(portC, portD)[i]
    {
      PadsAndPins(portB, portC, portD, portE, i);
    }
    AxisShows(HoriRaw(portE, portB), HoriPads(portE, portB));
    AxisShows(VertRaw(portC, portD), VertPads(portC, portD));
  }

  lemma AxisShows(bits: bv16, low: seq<bool>)
    requires |low| == SLIDER_COUNT && forall i :: 0 <= i < SLIDER_COUNT ==> Touched(bits, i) == low[i]
    ensures Shows(IdxToAxis(FirstTouched(bits, 0)), low)
  {
    hide Touched;
    var k := FirstTouched(bits, 0);
    assert forall i :: 0 <= i < SLIDER_COUNT && low[i] ==> k >= 0 && k <= i;
  }

  class JoystickTask {
    const hid: HidGeneric
    var usbReport: Report
    var prevReport: Report
    ghost var accepted: seq<Report>
    ghost var x: Index
    ghost var y: Index

    ghost function View(): Stick
      reads this, hid, hid.ep
    {
      Stick(prevReport, hid.View(), accepted, x, y)
    }

    constructor ()
      ensures View() == StickInitial() && Stream(View()) && fresh(hid) && fresh(hid.ep)
    {
      hid := new HidGeneric();
      usbReport, prevReport := [0, 0], CENTERED;
      accepted, x, y := [], -1, -1;
      new;
      InitialStream();
    }

    /** jstk_readHoriIndex. */
    method ReadHoriIndex(portE: bv8, portB: bv8) returns (i: Index)
      ensures i == HoriIndex(portE, portB)
    {
      i := Scan(HoriRaw(portE, portB));
    }

    /** jstk_readVertIndex. */
    method ReadVertIndex(portC: bv8, portD: bv8) returns (i: Index)
      ensures i == VertIndex(portC, portD)
    {
      i := Scan(VertRaw(portC, portD));
    }

    /** The first half of jstk_usbTask. */
    method SampleSliders(portB: bv8, portC: bv8, portD: bv8, portE: bv8) returns (ghost i: Index, ghost j: Index)
      modifies this`usbReport
      ensures i == HoriIndex(portE, portB) && j == VertIndex(portC, portD)
      ensures usbReport == Sample(i, j)
    {
      var h := ReadHoriIndex(portE, portB);
      var v := ReadVertIndex(portC, portD);
      StoreSample(h, v);
      i, j := h, v;
    }

    method StoreSample(i: Index, j: Index)
      modifies this`usbReport
      ensures usbReport == Sample(i, j)
    {
      usbReport := usbReport[0 := IdxToAxis(i)];
      usbReport := usbReport[1 := IdxToAxis(j)];
    }

    /** The second half of jstk_usbTask: i and j are the positions just sampled. */
    method SendIfChanged(ghost i: Index, ghost j: Index)
      requires Stream(View()) && usbReport == Sample(i, j)
      modifies this, hid, hid.ep
      ensures View() == UsbTask(old(View()), i, j)
    {
      hide Sample, Changing, Jobs, SendReport, Accepts, InFlight, RunAccepted;
      if usbReport[0] != prevReport[0] || usbReport[1] != prevReport[1] {
        var sent := hid.SendReportIn(usbReport);
        if sent {
          prevReport := prevReport[0 := usbReport[0]];
          prevReport := prevReport[1 := usbReport[1]];
          assert prevReport == usbReport;
          accepted, x, y := accepted + [usbReport], i, j;
        }
      } else {
        assert usbReport == prevReport;
      }
    }

    /** jstk_usbTask: what is accepted is on its way to the host, and pictures the sliders. */
    method Tick(portB: bv8, portC: bv8, portD: bv8, portE: bv8)
      requires Stream(View())
      modifies this, hid, hid.ep
      ensures Stream(View())
      ensures if |accepted| > |old(accepted)|
              then accepted == old(accepted) + [prevReport] && Pictures(prevReport, portB, portC, portD, portE)
              else accepted == old(accepted) && prevReport == old(prevReport)
      ensures |accepted| > |old(accepted)| ==> hid.ep.job.busy && hid.ep.job.buf == prevReport
      ensures View() == UsbTask(old(View()), HoriIndex(portE, portB), VertIndex(portC, portD))
    {
      ghost var i, j;
      i, j := SampleSliders(portB, portC, portD, portE);
      TickSpec(View(), i, j);
      TickPictures(View(), i, j);
      SamplePictures(portB, portC, portD, portE);
      SendIfChanged(i, j);
    }
  }
}
