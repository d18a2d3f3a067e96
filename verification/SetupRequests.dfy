/** The control requests the device supports, as one table: for each value of bmRequestType and
    bRequest the reply or the condition under which it is accepted (section 9.4 of USB 2.0, and
    section 7.2 of the HID class definition).  The decoder of udc.c and udi_hid.c, which tries one
    layer after the other, is compared with it. */
module SetupRequests {
  import opened Packets
  import opened Descriptors
  import opened UdcConfiguration
  import opened ControlSteps

  const DT_HID: byte := 0x21

  /** The constant data of the device.  A name that is not configured is None. */
  datatype Device = Device(deviceDesc: seq<byte>, names: seq<Option<seq<byte>>>, reportDesc: seq<byte>)

  /** What the driver answers when a request asks about an endpoint, and the UDIs when they are enabled. */
  datatype Driver = Driver(halted: bool, clearHaltOk: bool, setHaltOk: bool, udiOk: Answers)

  /** Idle rate, protocol and feature report of the HID interface. */
  datatype Hid = Hid(rate: byte, protocol: byte, feature: seq<byte>)

  /** What the answer to a request depends on. */
  datatype Facts = Facts(dev: Device, core: Core, hid: Hid, drv: Driver)

  /** An accepted request: the data to send, or the place of the data to receive, and the callback. */
  datatype Decoded = Decoded(data: seq<byte>, callback: ReqCallback)

  // ----- the device

  /** An interface descriptor has the standard length and a descriptor behind it; if that is a HID
      descriptor, it has all its fields and announces no more than the report descriptor. */
  predicate HidAt(dev: Device, ds: seq<Descriptor>, i: nat)
    requires AllFit(ds) && i < |ds|
  {
    ds[i].descType == DT_INTERFACE ==>
      && Length(ds[i]) == 9 && i + 1 < |ds|
      && (ds[i + 1].descType == DT_HID ==>
            && Length(ds[i + 1]) >= 9
            && 0 < Word(ds[i + 1].body[5], ds[i + 1].body[6]) <= |dev.reportDesc|)
  }

  predicate HidShaped(dev: Device, b: seq<byte>)
    requires IsConfiguration(b)
  {
    forall i :: 0 <= i < |Parse(b)| ==> HidAt(dev, Parse(b), i)
  }

  /** The device descriptor of section 9.6.1 of USB 2.0. */
  predicate IsDeviceDescriptor(b: seq<byte>) { |b| == 18 == b[0] && b[1] == 1 }

  /** The descriptors have their types and fit their length fields. */
  predicate DeviceOk(dev: Device, configs: seq<seq<byte>>) {
    && AllConfigurations(configs)
    && IsDeviceDescriptor(dev.deviceDesc) && |dev.reportDesc| < WORD
    && |dev.names| == 3 && (forall k :: 0 <= k < 3 && dev.names[k].Some? ==> |dev.names[k].value| <= 126)
    && forall k :: 0 <= k < |configs| ==> HidShaped(dev, configs[k])
  }

  predicate FactsOk(f: Facts) {
    DeviceOk(f.dev, f.core.configs) && CoreOk(f.core) && |f.hid.feature| < WORD
  }

  /** The configuration in use. */
  function Current(f: Facts): (b: seq<byte>)
    requires FactsOk(f) && f.core.numConfiguration > 0
    ensures IsConfiguration(b) && HidShaped(f.dev, b)
  {
    CurrentConf(f.core)
  }

  // ----- descriptors

  /** Each character as a little-endian word. */
  function Widen(name: seq<byte>): (w: seq<byte>)
    ensures |w| == 2 * |name|
  {
    if name == [] then [] else Widen(name[..|name| - 1]) + [name[|name| - 1], 0]
  }

  function StringDescriptor(name: seq<byte>): seq<byte>
    requires |name| <= 126
  {
    [2 + 2 * |name|, 3] + Widen(name)
  }

  /** String descriptor 0: English (United States). */
  const LANGUAGES: seq<byte> := [4, 3, 0x09, 0x04]

  /** A name that is configured but empty leaves the reply empty. */
  function StringReply(dev: Device, index: byte): Option<seq<byte>>
    requires |dev.names| == 3 && forall k :: 0 <= k < 3 && dev.names[k].Some? ==> |dev.names[k].value| <= 126
  {
    if index == 0 then Some(LANGUAGES)
    else if index > 3 || dev.names[index - 1].None? then None
    else if dev.names[index - 1].value == [] then Some([])
    else Some(StringDescriptor(dev.names[index - 1].value))
  }

  function DescriptorReply(f: Facts, wValue: nat): Option<seq<byte>>
    requires FactsOk(f)
  {
    var kind, index := wValue / 256 % 256, wValue % 256;
    if kind == 1 then Some(f.dev.deviceDesc)
    else if kind == 2 then (if index < |f.core.configs| then Some(f.core.configs[index]) else None)
    else if kind == 3 then StringReply(f.dev, index)
    else None
  }

  /** The HID descriptor behind an interface descriptor, or the report descriptor it announces. */
  function HidReply(f: Facts, i: nat, wValue: nat): Option<seq<byte>>
    requires FactsOk(f) && f.core.numConfiguration > 0
    requires i < |Parse(Current(f))| && Parse(Current(f))[i].descType == DT_INTERFACE
  {
    assert HidAt(f.dev, Parse(Current(f)), i);
    var h := Parse(Current(f))[i + 1];
    var kind := wValue / 256 % 256;
    if h.descType != DT_HID then None
    else if kind == DT_HID then Some(Encode(h))
    else if h.body[4] == kind then Some(f.dev.reportDesc[..Word(h.body[5], h.body[6])])
    else None
  }

  // ----- the answers of the UDI

  /** The interface descriptor in use of an interface exists. */
  predicate Present(f: Facts, num: byte)
    requires FactsOk(f)
  {
    && f.core.numConfiguration > 0 && num < NumInterfaces(Current(f))
    && Selectable(Current(f), num, f.core.setting[num])
  }

  /** Feature report 0, of exactly its size. */
  predicate FeatureReport(req: Request, feature: seq<byte>) {
    req.wValue / 256 == 3 && req.wValue % 256 == 0 && req.wLength == |feature|
  }

  /** The answer of the UDI, by direction and type of the request; reply is the one to GET_DESCRIPTOR. */
  function UdiAnswer(req: Request, reply: Option<seq<byte>>, hid: Hid): Option<Decoded> {
    match (req.bmRequestType / 32, req.bRequest)
    case (4, 6) => Plain(reply)
    case (5, 1) => if FeatureReport(req, hid.feature) then Some(Decoded(hid.feature, OtherFn)) else None
    case (5, 2) => Plain(Some([hid.rate]))
    case (5, 3) => Plain(Some([hid.protocol]))
    case (1, 9) => if FeatureReport(req, hid.feature) then Some(Decoded(hid.feature, OtherFn)) else None
    case (1, 10) => Plain(Some([]))
    case (1, 11) => if req.wLength == 0 then Plain(Some([])) else None
    case _ => None
  }

  /** A request to an interface that the core has not accepted. */
  function HidAnswer(f: Facts, req: Request, num: byte): Option<Decoded>
    requires FactsOk(f) && Present(f, num)
  {
    var b := Current(f);
    IfaceAt(b, num, f.core.setting[num]);
    UdiAnswer(req, HidReply(f, FindIface(Parse(b), num, f.core.setting[num]), req.wValue), f.hid)
  }

  /** SET_IDLE and SET_PROTOCOL of the HID class. */
  predicate SetsIdle(req: Request) { req.bmRequestType / 32 == 1 && req.bRequest == 10 }

  predicate SetsProtocol(req: Request) { req.bmRequestType / 32 == 1 && req.bRequest == 11 }

  lemma IfaceAt(b: seq<byte>, num: byte, alt: byte)
    requires IsConfiguration(b) && Selectable(b, num, alt)
    ensures Parse(b)[FindIface(Parse(b), num, alt)].descType == DT_INTERFACE
  {
    FindIfaceUnique(Parse(b), num, alt, FindIface(Parse(b), num, alt));
  }

  function Plain(reply: Option<seq<byte>>): Option<Decoded> {
    if reply.Some? then Some(Decoded(reply.value, NoCallback)) else None
  }

  /** The first interface from num on that accepts a request, up to one that does not exist. */
  function FirstAnswer(f: Facts, req: Request, num: nat): Option<Decoded>
    requires FactsOk(f) && num < 256
    decreases 256 - num
  {
    if !Present(f, num) then None
    else if HidAnswer(f, req, num).Some? || num == 255 then HidAnswer(f, req, num)
    else FirstAnswer(f, req, num + 1)
  }

  /** It is the answer of the first interface that gives one, unless one before it is missing. */
  lemma {:induction false} FirstAnswerIs(f: Facts, req: Request, num: nat, k: nat)
    requires FactsOk(f) && num <= k < 256
    requires forall i: nat :: num <= i < k ==> Present(f, i) && HidAnswer(f, req, i).None?
    ensures !Present(f, k) ==> FirstAnswer(f, req, num).None?
    ensures Present(f, k) && HidAnswer(f, req, k).Some? ==> FirstAnswer(f, req, num) == HidAnswer(f, req, k)
    decreases k - num
  {
    hide WellFormed, Parse, HidReply;
    if num < k {
      assert Present(f, num) && HidAnswer(f, req, num).None?;
      FirstAnswerIs(f, req, num + 1, k);
    }
  }

  // ----- the table

  function When(accepted: bool, data: seq<byte>): Option<Decoded> {
    if accepted then Some(Decoded(data, NoCallback)) else None
  }

  /** The default setting of an interface exists. */
  predicate Present0(f: Facts, num: byte)
    requires FactsOk(f)
  {
    f.core.numConfiguration > 0 && num < NumInterfaces(Current(f)) && Selectable(Current(f), num, 0)
  }

  /** The GET requests of section 9.4 of USB 2.0 that the core answers itself. */
  function StandardGet(f: Facts, req: Request): Option<Decoded>
    requires FactsOk(f)
  {
    match (req.bmRequestType, req.bRequest)
    case (0x80, 0) => When(req.wLength == 2, [f.core.deviceStatus, 0])
    case (0x80, 6) => Plain(DescriptorReply(f, req.wValue))
    case (0x80, 8) => When(req.wLength == 1, [f.core.numConfiguration])
    case (0x81, 10) => When(req.wLength == 1 && Present0(f, req.wIndex % 256), [f.core.setting[req.wIndex % 256]])
    case (0x82, 0) => When(req.wLength == 2, [if f.drv.halted then 1 else 0, 0])
    case _ => None
  }

  /** The SET requests. */
  ghost function StandardSet(f: Facts, req: Request): Option<Decoded>
    requires FactsOk(f)
  {
    match (req.bmRequestType, req.bRequest)
    case (0x00, 1) => When(req.wLength == 0 && req.wValue == 1, [])
    case (0x00, 3) => When(req.wLength == 0 && req.wValue == 1, [])
    case (0x00, 5) => if req.wLength == 0 then Some(Decoded([], SetAddressFn)) else None
    case (0x00, 9) => When(SetConfAccepted(f.core, req.wValue, req.wLength, f.drv.udiOk), [])
    case (0x01, 11) =>
      When(SetIfaceAccepted(f.core, req.wValue, req.wIndex, req.wLength, f.drv.udiOk[req.wIndex % 256]), [])
    case (0x02, 1) => When(req.wLength == 0 && req.wValue == 0 && f.drv.clearHaltOk, [])
    case (0x02, 3) => When(req.wLength == 0 && req.wValue == 0 && f.drv.setHaltOk, [])
    case _ => None
  }

  ghost function Standard(f: Facts, req: Request): Option<Decoded>
    requires FactsOk(f)
  {
    if IsIn(req) then StandardGet(f, req) else StandardSet(f, req)
  }

  lemma StandardType(f: Facts, req: Request)
    requires FactsOk(f) && req.bmRequestType / 32 % 4 != 0
    ensures Standard(f, req).None?
  {
    var t := req.bmRequestType;
    assert t != 0x80 && t != 0x81 && t != 0x82 && t != 0x00 && t != 0x01 && t != 0x02;
  }

  /** The answer to an interface request that the core leaves to the UDI. */
  function InterfaceAnswer(f: Facts, req: Request): Option<Decoded>
    requires FactsOk(f)
  {
    var num := req.wIndex % 256;
    if Present0(f, num) && Present(f, num) then HidAnswer(f, req, num) else None
  }

  /** The answer of the UDIs. */
  function UdiPart(f: Facts, req: Request): Option<Decoded>
    requires FactsOk(f)
  {
    if req.bmRequestType % 32 == 1 then InterfaceAnswer(f, req)
    else if req.bmRequestType % 32 == 2 then FirstAnswer(f, req, 0)
    else None
  }

  /** The answer to a request before its data is cut to wLength. */
  ghost function Answered(f: Facts, req: Request): Option<Decoded>
    requires FactsOk(f)
  {
    if IsIn(req) && req.wLength == 0 then None
    else if Standard(f, req).Some? then Standard(f, req)
    else UdiPart(f, req)
  }

  /** SET_IDLE is accepted by an interface that is present, or for an endpoint by the first one, whatever
      wLength announces: it is not checked. */
  lemma SetIdleAccepted(f: Facts, req: Request)
    requires FactsOk(f) && SetsIdle(req)
    ensures Answered(f, req).Some? <==>
      var num := req.wIndex % 256;
      || (req.bmRequestType % 32 == 1 && Present0(f, num) && Present(f, num))
      || (req.bmRequestType % 32 == 2 && Present(f, 0))
    ensures Answered(f, req).Some? ==> Answered(f, req).value == Decoded([], NoCallback)
  {
    StandardType(f, req);
  }

  /** At most wLength bytes of a reply. */
  function Cut(data: seq<byte>, n: nat): (r: seq<byte>)
    ensures r <= data && |r| == if |data| <= n then |data| else n
  {
    if |data| <= n then data else data[..n]
  }

  /** The answer the decoder must give: data for the host is cut to wLength. */
  ghost predicate AsTable(f: Facts, req: Request, d: Decision)
    requires FactsOk(f)
  {
    match Answered(f, req)
    case None => d.Reject?
    case Some(a) =>
      && d.Accept? && d.size <= |d.payload| && d.callback == a.callback && !d.overrun
      && d.payload[..d.size] == if IsIn(req) then Cut(a.data, req.wLength) else a.data
  }

  // ----- what a request changes

  /** The state of the core before and after a request, which is accepted or not.  A checked
      SET_CONFIGURATION resets the core even when it fails; a failed SET_INTERFACE may leave the
      interface without endpoints. */
  ghost predicate CoreEffect(c: Core, d: Core, req: Request, udiOk: Answers, ok: bool)
    requires CoreOk(c) && CoreOk(d)
  {
    match (req.bmRequestType, req.bRequest)
    case (0, 1) => d == if ok then c.(deviceStatus := 0) else c
    case (0, 3) => d == if ok then c.(deviceStatus := 2) else c
    case (0, 9) => SetConfDone(c, d, req.wValue, req.wLength, udiOk, ok)
    case (1, 11) => SetIfaceDone(c, d, req.wValue, req.wIndex, req.wLength, udiOk[req.wIndex % 256], ok)
    case _ => d == c
  }

  /** The enable function of the HID interface is reached, whatever it then answers. */
  ghost predicate Enables(c: Core, req: Request)
    requires CoreOk(c)
  {
    match (req.bmRequestType, req.bRequest)
    case (0, 9) => SetConfReaches(c, req.wValue, req.wLength)
    case (1, 11) => SetIfaceReaches(c, req.wValue, req.wIndex, req.wLength)
    case _ => false
  }

  /** The effect on the core, and on idle rate and protocol: they are reset when the interface is
      enabled, and set by SET_IDLE and SET_PROTOCOL. */
  ghost predicate Effect(f: Facts, g: Facts, req: Request, ok: bool)
    requires FactsOk(f) && FactsOk(g)
  {
    && g.dev == f.dev && g.drv == f.drv
    && CoreEffect(f.core, g.core, req, f.drv.udiOk, ok)
    && g.hid == if Enables(f.core, req) then Enabled(f.hid) else AfterUdi(f.hid, req, ok)
  }

  /** udi_hid_generic_enable. */
  function Enabled(hid: Hid): Hid { hid.(rate := 0, protocol := 0) }

  /** SET_IDLE and SET_PROTOCOL change the state of the HID interface. */
  function AfterUdi(hid: Hid, req: Request, ok: bool): Hid {
    if ok && SetsIdle(req) then hid.(rate := req.wValue / 256 % 256)
    else if ok && SetsProtocol(req) then hid.(protocol := req.wValue % 256)
    else hid
  }

  /** What SET_CONFIGURATION does to the core, and the enable function to the UDI. */
  lemma SetConfEffect(f: Facts, g: Facts, req: Request, ok: bool, called: bool)
    requires FactsOk(f) && FactsOk(g) && req.bmRequestType == 0 && req.bRequest == 9
    requires SetConfDone(f.core, g.core, req.wValue, req.wLength, f.drv.udiOk, ok)
    requires called <==> SetConfReaches(f.core, req.wValue, req.wLength)
    requires g == f.(core := g.core, hid := if called then Enabled(f.hid) else f.hid)
    ensures StandardSet(f, req) == When(ok, []) && Effect(f, g, req, ok)
  {}

  /** The same for SET_INTERFACE. */
  lemma SetIfaceEffect(f: Facts, g: Facts, req: Request, ok: bool, called: bool)
    requires FactsOk(f) && FactsOk(g) && req.bmRequestType == 1 && req.bRequest == 11
    requires SetIfaceDone(f.core, g.core, req.wValue, req.wIndex, req.wLength, f.drv.udiOk[req.wIndex % 256], ok)
    requires called <==> SetIfaceReaches(f.core, req.wValue, req.wIndex, req.wLength)
    requires g == f.(core := g.core, hid := if called then Enabled(f.hid) else f.hid)
    ensures StandardSet(f, req) == When(ok, []) && Effect(f, g, req, ok)
  {}

  /** What the UDIs accept is none of the requests that change the core. */
  lemma CoreThenUdi(f: Facts, g: Facts, req: Request, ok: bool)
    requires FactsOk(f) && FactsOk(g) && Effect(f, g, req, false)
    requires ok ==> req.bmRequestType >= 32
    ensures Effect(f, g.(hid := AfterUdi(g.hid, req, ok)), req, ok)
  {}

  lemma CoreUntouched(f: Facts, req: Request)
    requires FactsOk(f) && req.bmRequestType >= 32
    ensures Effect(f, f, req, false)
  {}

  // ----- what the driver relies on

  /** The one request with an empty reply: a configured name without characters. */
  predicate AsksEmptyName(f: Facts, req: Request)
    requires FactsOk(f)
  {
    && req.bmRequestType == 0x80 && req.bRequest == 6 && req.wValue / 256 % 256 == 3
    && 1 <= req.wValue % 256 <= 3 && f.dev.names[req.wValue % 256 - 1] == Some([])
  }

  /** Where interfaces answer, they answer with data. */
  lemma {:induction false} InterfaceData(f: Facts, req: Request, num: nat)
    requires FactsOk(f) && num < 256 && IsIn(req) && 0 < req.wLength
    ensures var a := FirstAnswer(f, req, num);
      a.Some? ==> 0 < |a.value.data| < WORD && !a.value.callback.SetAddressFn?
    decreases 256 - num
  {
    if Present(f, num) {
      HidData(f, req, num);
      if HidAnswer(f, req, num).None? && num < 255 {
        InterfaceData(f, req, num + 1);
      }
    }
  }

  lemma HidData(f: Facts, req: Request, num: byte)
    requires FactsOk(f) && IsIn(req) && 0 < req.wLength && Present(f, num)
    ensures var a := HidAnswer(f, req, num);
      a.Some? ==> 0 < |a.value.data| < WORD && !a.value.callback.SetAddressFn?
  {
    var b := Current(f);
    var i := FindIface(Parse(b), num, f.core.setting[num]);
    IfaceAt(b, num, f.core.setting[num]);
    assert HidAt(f.dev, Parse(b), i);
  }

  /** Every other accepted IN request has data. */
  lemma AcceptedData(f: Facts, req: Request)
    requires FactsOk(f) && IsIn(req) && Answered(f, req).Some?
    ensures var a := Answered(f, req).value;
      && |a.data| < WORD && !a.callback.SetAddressFn?
      && (|a.data| == 0 <==> AsksEmptyName(f, req))
  {
    if Standard(f, req).None? {
      InterfaceData(f, req, 0);
      if Present(f, req.wIndex % 256) {
        HidData(f, req, req.wIndex % 256);
      }
    }
  }

  /** Interfaces take OUT data into the feature report only, and never touch the address. */
  lemma {:induction false} InterfaceRoom(f: Facts, req: Request, num: nat)
    requires FactsOk(f) && num < 256 && !IsIn(req)
    ensures var a := FirstAnswer(f, req, num);
      a.Some? ==> a.value.data in {[], f.hid.feature} && !a.value.callback.SetAddressFn?
    decreases 256 - num
  {
    if Present(f, num) && HidAnswer(f, req, num).None? && num < 255 {
      InterfaceRoom(f, req, num + 1);
    }
  }

  lemma AcceptedRoom(f: Facts, req: Request)
    requires FactsOk(f) && !IsIn(req) && Answered(f, req).Some?
    ensures var a := Answered(f, req).value;
      && a.data in {[], f.hid.feature}
      && (a.callback.SetAddressFn? <==> req.bmRequestType == 0 && req.bRequest == 5)
      && (a.callback.SetAddressFn? ==> req.wLength == 0)
  {
    if Standard(f, req).None? {
      InterfaceRoom(f, req, 0);
    }
  }

  /** What the control endpoint relies on: an accepted IN request has at most wLength bytes, and it
      has some unless it asks for an empty name; and only SET_ADDRESS without data changes the
      address. */
  lemma AnswersAreOk(f: Facts, req: Request, d: Decision)
    requires FactsOk(f) && AsTable(f, req, d) && d.Accept?
    ensures DecisionOk(req, d)
    ensures IsIn(req) ==> (d.size == 0 <==> AsksEmptyName(f, req))
    ensures d.callback.SetAddressFn? <==> req.bmRequestType == 0 && req.bRequest == 5
  {
    assert |d.payload[..d.size]| == d.size;
    if IsIn(req) {
      AcceptedData(f, req);
    } else {
      AcceptedRoom(f, req);
    }
  }
}
