/** The descriptors of this device (udi_hid_generic_desc.c, udi_hid_generic.h, conf_usb.h), and what
    the general results about configurations and requests mean for it. */
module JoystickDevice {
  import opened Packets
  import opened Descriptors
  import opened UdcConfiguration
  import opened ControlSteps
  import opened SetupRequests
  import opened SetupDecoder
  import opened ControlSafety
  import opened RequestReplies

  const EP_IN: byte := 0x81

  /** Configuration, interface, HID and endpoint descriptor. */
  const DESCRIPTORS: seq<Descriptor> := [
    Descriptor(DT_CONFIGURATION, [34, 0, 1, 1, 0, 0xA0, 50]),
    Descriptor(DT_INTERFACE, [0, 0, 1, 3, 0, 0, 0]),
    Descriptor(DT_HID, [0x11, 0x01, 0, 1, 0x22, 27, 0]),
    Descriptor(DT_ENDPOINT, [EP_IN, 3, 8, 0, 4])]

  const REPORT_DESCRIPTOR: seq<byte> := [
    0x05, 0x01, 0x09, 0x04, 0xA1, 0x01, 0xA1, 0x00, 0x05, 0x01, 0x09, 0x30, 0x09, 0x31,
    0x15, 0x00, 0x26, 0xFF, 0x00, 0x75, 0x08, 0x95, 0x02, 0x81, 0x02, 0xC0, 0xC0]

  /** "ATMEL ASF" and "HID Joystick". */
  const MANUFACTURER: seq<byte> := [65, 84, 77, 69, 76, 32, 65, 83, 70]
  const PRODUCT: seq<byte> := [72, 73, 68, 32, 74, 111, 121, 115, 116, 105, 99, 107]

  function Config(): seq<byte>
  {
    assert AllFit(DESCRIPTORS);
    EncodeAll(DESCRIPTORS)
  }

  /** USB 2.0, packets of 8 bytes on endpoint 0, 03EB:2132, version 1.0, two strings, one configuration. */
  const DEVICE_DESCRIPTOR: seq<byte> := [18, 1, 0, 2, 0, 0, 0, 8, 0xEB, 0x03, 0x32, 0x21, 0, 1, 1, 2, 0, 1]

  const JOYSTICK: Device :=
    Device(DEVICE_DESCRIPTOR, [Some(MANUFACTURER), Some(PRODUCT), None], REPORT_DESCRIPTOR)

  lemma ConfigBytes()
    ensures Config() == [9, 2, 34, 0, 1, 1, 0, 0xA0, 50]
              + ([9, 4, 0, 0, 1, 3, 0, 0, 0]
                 + ([9, 0x21, 0x11, 0x01, 0, 1, 0x22, 27, 0] + [7, 5, EP_IN, 3, 8, 0, 4]))
  {
    var ds := DESCRIPTORS;
    EncodeCons(ds[3], []);
    EncodeCons(ds[2], [ds[3]]);
    EncodeCons(ds[1], [ds[2], ds[3]]);
    EncodeCons(ds[0], [ds[1], ds[2], ds[3]]);
    assert ds == [ds[0]] + [ds[1], ds[2], ds[3]];
    DescriptorBytes();
  }

  lemma DescriptorBytes()
    ensures Encode(DESCRIPTORS[0]) == [9, 2, 34, 0, 1, 1, 0, 0xA0, 50]
    ensures Encode(DESCRIPTORS[1]) == [9, 4, 0, 0, 1, 3, 0, 0, 0]
    ensures Encode(DESCRIPTORS[2]) == [9, 0x21, 0x11, 0x01, 0, 1, 0x22, 27, 0]
    ensures Encode(DESCRIPTORS[3]) + EncodeAll([]) == [7, 5, EP_IN, 3, 8, 0, 4]
  {}

  lemma ConfigParsed()
    ensures IsConfiguration(Config()) && Parse(Config()) == DESCRIPTORS && NumInterfaces(Config()) == 1
  {
    assert AllFit(DESCRIPTORS);
    ParseEncode(DESCRIPTORS);
    ConfigBytes();
  }

  lemma EndpointAhead()
    ensures AllFit(DESCRIPTORS) && FindIface(DESCRIPTORS, 0, 0) == 1
    ensures Ahead(DESCRIPTORS, DT_ENDPOINT, 2) == [3]
  {
    var ds := DESCRIPTORS;
    FindIfaceUnique(ds, 0, 0, 1);
    AheadStep(ds, DT_ENDPOINT, 2);
    AheadStep(ds, DT_ENDPOINT, 3);
    AheadStep(ds, DT_ENDPOINT, 4);
  }

  lemma EndpointAddress()
    ensures AllFit(DESCRIPTORS) && Entries(DESCRIPTORS, [3]) == [EntryOf(EP_IN)]
  {
    assert Entries(DESCRIPTORS, [3]) == [EpEntry(DESCRIPTORS[3])] + Entries(DESCRIPTORS, [3][1..]);
  }

  /** One interface with one endpoint. */
  lemma ConfigEndpoints()
    ensures IsConfiguration(Config()) && NumInterfaces(Config()) == 1
    ensures Selectable(Config(), 0, 0) && IfaceEps(Config(), 0, 0) == [EntryOf(EP_IN)]
  {
    ConfigParsed();
    EndpointAhead();
    EndpointAddress();
  }

  /** What that means for SET_CONFIGURATION, in any such configuration. */
  lemma OneEndpoint(b: seq<byte>, udiOk: Answers, k: byte)
    requires IsConfiguration(b) && NumInterfaces(b) == 1 && Selectable(b, 0, 0) && IfaceEps(b, 0, 0) == [k]
    ensures AllEnable(b, udiOk, 1) <==> udiOk[0]
    ensures DefaultEps(b, 1) == {k} && ReachesAny(b)
  {
    assert DefaultEps(b, 0) == {} && AllEnable(b, udiOk, 0);
    assert ToSet([k]) == {k};
    assert AllNew({}, [k]) by {
      assert [k][1..] == [];
    }
  }

  /** SET_CONFIGURATION succeeds if the UDI agrees, and then the IN endpoint is the one in use. */
  lemma ConfigDefault(udiOk: Answers)
    ensures IsConfiguration(Config())
    ensures AllEnable(Config(), udiOk, 1) <==> udiOk[0]
    ensures DefaultEps(Config(), 1) == {EntryOf(EP_IN)}
  {
    ConfigEndpoints();
    OneEndpoint(Config(), udiOk, EntryOf(EP_IN));
  }

  lemma JoystickOk()
    ensures DeviceOk(JOYSTICK, [Config()])
  {
    ConfigParsed();
    forall i | 0 <= i < |DESCRIPTORS| ensures HidAt(JOYSTICK, DESCRIPTORS, i) {
      assert i == 0 || i == 1 || i == 2 || i == 3;
    }
  }

  /** Every answer of this device is one the control endpoint can rely on, and no reply is empty. */
  lemma JoystickDecisions(f: Facts, req: Request, d: Decision)
    requires IsJoystick(f)
    ensures FactsOk(f)
    ensures AsTable(f, req, d) ==> DecisionOk(req, d) && (d.Accept? && IsIn(req) ==> 0 < d.size)
  {
    JoystickOk();
    if AsTable(f, req, d) && d.Accept? {
      AnswersAreOk(f, req, d);
    }
  }

  /** A decision this device may come to, in whatever state it is. */
  ghost predicate FromJoystick(req: Request, d: Decision) {
    exists f: Facts :: IsJoystick(f) && FactsOk(f) && AsTable(f, req, d)
  }

  /** This device, in any state; it has no feature report. */
  ghost predicate IsJoystick(f: Facts) {
    && f.dev == JOYSTICK && f.core.configs == [Config()]
    && f.core.numConfiguration <= 1 && |f.core.setting| == 256 && f.hid.feature == []
  }

  /** Every answer of this device is one the control endpoint can rely on, and its OUT data stages are
      over with their first packet. */
  lemma JoystickAnswers(req: Request, d: Decision)
    requires FromJoystick(req, d)
    ensures DecisionOk(req, d)
    ensures d.Accept? && !IsIn(req) ==> !d.overrun && d.size == 0
  {
    var f: Facts :| IsJoystick(f) && FactsOk(f) && AsTable(f, req, d);
    JoystickDecisions(f, req, d);
    if d.Accept? && !IsIn(req) {
      OutAnswersHaveRoom(f, req, d);
    }
  }

  /** On this device no copy of the control endpoint ever leaves its payload, whatever the host sends
      and however it mixes data and status stages. */
  lemma JoystickNeverFaults(evs: seq<Event>)
    requires Possible(Initial(), evs)
    requires forall i :: 0 <= i < |evs| && evs[i].EvSetup? ==> FromJoystick(evs[i].req, evs[i].decision)
    ensures !Run(Initial(), evs).hist.fault && PayloadSafe(Run(Initial(), evs))
  {
    hide FromJoystick;
    forall i | 0 <= i < |evs| ensures ShortRequest(evs[i]) {
      if evs[i].EvSetup? {
        JoystickAnswers(evs[i].req, evs[i].decision);
      }
    }
    ShortRequestsAreSafe(Initial(), evs);
  }

  /** Selecting configuration 1 reaches the enable function of the HID interface, so it resets idle
      rate and protocol whatever that function answers. */
  lemma ConfigReaches(c: Core)
    requires c.configs == [Config()] && c.numConfiguration <= 1 && |c.setting| == 256 && c.address != 0
    ensures CoreOk(c) && SetConfReaches(c, 1, 0)
  {
    ConfigEndpoints();
    OneEndpoint(Config(), seq(256, _ => true), EntryOf(EP_IN));
  }

  // ----- what the host reads and sets

  /** The configuration of this device, as the host sees it. */
  lemma JoystickDescriptors(f: Facts, i: byte, wIndex: nat, n: nat, d: Decision)
    requires IsJoystick(f) && FactsOk(f) && 0 < n
    ensures AsTable(f, Request(0x80, 6, 0x0100 + i, wIndex, n), d) ==> Sends(d, DEVICE_DESCRIPTOR, n)
    ensures AsTable(f, Request(0x80, 6, 0x0200 + i, wIndex, n), d) ==>
      if i == 0 then Sends(d, Config(), n) else d.Reject?
  {
    hide WellFormed, Parse, AsTable, Config, Sends;
    if AsTable(f, Request(0x80, 6, 0x0100 + i, wIndex, n), d) {
      DeviceReply(f, i, wIndex, n, d);
    }
    if AsTable(f, Request(0x80, 6, 0x0200 + i, wIndex, n), d) {
      ConfigurationReply(f, i, wIndex, n, d);
    }
  }

  /** While it is configured, the HID descriptor and the report descriptor. */
  lemma JoystickReports(f: Facts, i: byte, n: nat, d: Decision)
    requires IsJoystick(f) && FactsOk(f) && f.core.numConfiguration == 1 && f.core.setting[0] == 0 && 0 < n
    ensures AsTable(f, Request(0x81, 6, 0x2200 + i, 0, n), d) ==> Sends(d, REPORT_DESCRIPTOR, n)
    ensures AsTable(f, Request(0x81, 6, 0x2100 + i, 0, n), d) ==>
      Sends(d, [9, 0x21, 0x11, 0x01, 0, 1, 0x22, 27, 0], n)
  {
    hide WellFormed, Parse, AsTable, Config, Sends, Selectable;
    ConfigParsed();
    ConfigEndpoints();
    EndpointAhead();
    assert HasIface(f, 0, 0);
    if AsTable(f, Request(0x81, 6, 0x2200 + i, 0, n), d) {
      HidDescriptors(f, 0x22, i, 0, n, d);
      assert REPORT_DESCRIPTOR[..27] == REPORT_DESCRIPTOR;
    }
    if AsTable(f, Request(0x81, 6, 0x2100 + i, 0, n), d) {
      HidDescriptors(f, 0x21, i, 0, n, d);
      assert [9, 0x21] + DESCRIPTORS[2].body == [9, 0x21, 0x11, 0x01, 0, 1, 0x22, 27, 0];
    }
  }

  /** SET_CONFIGURATION of this device: once it has an address, 0 is always accepted and 1 if the UDI agrees;
      then the report endpoint is in use exactly in configuration 1. */
  lemma JoystickConfigures(f: Facts, value: nat, i: nat, n: nat, d: Decision, g: Facts)
    requires IsJoystick(f) && Served(f, Request(0, 9, value, i, n), d, g)
    ensures d.Accept? <==>
      n == 0 && f.core.address != 0 && (value % 256 == 0 || (value % 256 == 1 && f.drv.udiOk[0]))
    ensures d.Accept? ==>
      g.core.numConfiguration == value % 256 && g.core.enabled == if value % 256 == 0 then {} else {EntryOf(EP_IN)}
    ensures d.Reject? && (n != 0 || f.core.address == 0 || value % 256 > 1) ==> g.core == f.core
  {
    hide WellFormed, Parse, Config, AllEnable, DefaultEps;
    ConfigEndpoints();
    ConfigDefault(f.drv.udiOk);
    NoOtherAnswer(f, Request(0, 9, value, i, n));
  }
}
