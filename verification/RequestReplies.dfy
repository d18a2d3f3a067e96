/** The replies to the requests of section 9.4 of USB 2.0 and section 7.2 of the HID class definition, each
    written out as the host sends it, and what a host reads back after it has set something. */
module RequestReplies {
  import opened Packets
  import opened Descriptors
  import opened UdcConfiguration
  import opened ControlSteps
  import opened SetupRequests

  /** The request is accepted, and the host gets the data, up to the n bytes it has asked for. */
  predicate Sends(d: Decision, data: seq<byte>, n: nat) {
    && d.Accept? && !d.overrun && d.callback.NoCallback? && d.size <= |d.payload|
    && d.payload[..d.size] == if |data| <= n then data else data[..n]
  }

  /** Accepted without data for either side. */
  predicate Done(d: Decision) {
    d.Accept? && d.size == 0 && d.callback.NoCallback?
  }

  // ----- descriptors

  /** GET_DESCRIPTOR of the device, whatever the index. */
  lemma DeviceReply(f: Facts, i: byte, wIndex: nat, n: nat, d: Decision)
    requires FactsOk(f) && 0 < n && AsTable(f, Request(0x80, 6, 0x0100 + i, wIndex, n), d)
    ensures Sends(d, f.dev.deviceDesc, n)
  {
    hide WellFormed, Parse, StringReply, FirstAnswer, InterfaceAnswer;
    assert (0x0100 + i) / 256 % 256 == 1;
  }

  /** Of configuration i, counted from 0; there is none past the last. */
  lemma ConfigurationReply(f: Facts, i: byte, wIndex: nat, n: nat, d: Decision)
    requires FactsOk(f) && 0 < n && AsTable(f, Request(0x80, 6, 0x0200 + i, wIndex, n), d)
    ensures if i < |f.core.configs| then Sends(d, f.core.configs[i], n) else d.Reject?
  {
    hide WellFormed, Parse, StringReply, FirstAnswer, InterfaceAnswer;
    assert (0x0200 + i) / 256 % 256 == 2 && (0x0200 + i) % 256 == i;
  }

  /** Of a string: 0 is the language list, 1 to 3 are the names of manufacturer, product and serial number. */
  lemma StringReplies(f: Facts, i: byte, wIndex: nat, n: nat, d: Decision)
    requires FactsOk(f) && 0 < n && AsTable(f, Request(0x80, 6, 0x0300 + i, wIndex, n), d)
    ensures if i == 0 then Sends(d, [4, 3, 0x09, 0x04], n)
            else if 3 < i || f.dev.names[i - 1].None? then d.Reject?
            else f.dev.names[i - 1].value != [] ==> exists s :: Spells(s, f.dev.names[i - 1].value) && Sends(d, s, n)
  {
    hide WellFormed, Parse, Spells, Sends, AsTable;
    StringTable(f, i, wIndex, n, d);
    if 1 <= i <= 3 && f.dev.names[i - 1].Some? && f.dev.names[i - 1].value != [] {
      Spelled(f.dev.names[i - 1].value);
    }
  }

  lemma StringTable(f: Facts, i: byte, wIndex: nat, n: nat, d: Decision)
    requires FactsOk(f) && 0 < n && AsTable(f, Request(0x80, 6, 0x0300 + i, wIndex, n), d)
    ensures var reply := StringReply(f.dev, i); if reply.Some? then Sends(d, reply.value, n) else d.Reject?
  {
    hide WellFormed, Parse, StringReply, FirstAnswer, InterfaceAnswer;
    assert (0x0300 + i) / 256 % 256 == 3 && (0x0300 + i) % 256 == i;
  }

  /** A string descriptor: its length and type, and each character with a zero byte behind it. */
  ghost predicate Spells(s: seq<byte>, name: seq<byte>) {
    && |s| == 2 + 2 * |name| == s[0] && s[1] == 3
    && forall k :: 0 <= k < |name| ==> s[2 + 2 * k] == name[k] && s[3 + 2 * k] == 0
  }

  lemma Spelled(name: seq<byte>)
    requires |name| <= 126
    ensures Spells(StringDescriptor(name), name)
  {
    forall k | 0 <= k < |name|
      ensures StringDescriptor(name)[2 + 2 * k] == name[k] && StringDescriptor(name)[3 + 2 * k] == 0
    {
      Widened(name, k);
    }
  }

  lemma {:induction false} Widened(name: seq<byte>, k: nat)
    requires k < |name|
    ensures Widen(name)[2 * k] == name[k] && Widen(name)[2 * k + 1] == 0
    decreases |name|
  {
    if k < |name| - 1 {
      Widened(name[..|name| - 1], k);
    }
  }

  /** No other descriptor of the device exists. */
  lemma OtherDescriptors(f: Facts, kind: byte, i: byte, wIndex: nat, n: nat, d: Decision)
    requires FactsOk(f) && kind !in {1, 2, 3} && AsTable(f, Request(0x80, 6, 256 * kind + i, wIndex, n), d)
    ensures d.Reject?
  {
    hide WellFormed, Parse, StringReply, FirstAnswer, InterfaceAnswer;
    assert (256 * kind + i) / 256 % 256 == kind;
  }

  /** A reply that is not cut starts with a descriptor of the type that was asked for. */
  lemma RepliesHaveType(f: Facts, kind: byte, i: byte, wIndex: nat, n: nat, d: Decision)
    requires FactsOk(f) && AsTable(f, Request(0x80, 6, 256 * kind + i, wIndex, n), d) && d.Accept?
    requires d.size < n && !AsksEmptyName(f, Request(0x80, 6, 256 * kind + i, wIndex, n))
    ensures var reply := d.payload[..d.size]; 0 < |reply| && WellFormed(reply) && Head(reply).descType == kind
  {
    hide WellFormed, Parse, AsTable, AsksEmptyName;
    EmptyName(f, kind, i, wIndex, n);
    if kind == 1 {
      DeviceReply(f, i, wIndex, n, d);
      OneDescriptor(f.dev.deviceDesc);
    } else if kind == 2 {
      ConfigurationReply(f, i, wIndex, n, d);
    } else if kind == 3 {
      StringReplies(f, i, wIndex, n, d);
      assert |d.payload[..d.size]| == d.size;
      if i > 0 {
        var s :| Spells(s, f.dev.names[i - 1].value) && Sends(d, s, n);
        assert d.payload[..d.size] == s;
      }
      OneDescriptor(d.payload[..d.size]);
    } else {
      OtherDescriptors(f, kind, i, wIndex, n, d);
    }
  }

  lemma EmptyName(f: Facts, kind: byte, i: byte, wIndex: nat, n: nat)
    requires FactsOk(f)
    ensures AsksEmptyName(f, Request(0x80, 6, 256 * kind + i, wIndex, n))
       <==> kind == 3 && 1 <= i <= 3 && f.dev.names[i - 1] == Some([])
  {
    hide WellFormed, Parse;
    assert (256 * kind + i) / 256 % 256 == kind && (256 * kind + i) % 256 == i;
  }

  lemma OneDescriptor(b: seq<byte>)
    requires |b| >= 2 && b[0] == |b| && b[1] !in {DT_INTERFACE, DT_ENDPOINT}
    ensures WellFormed(b) && Head(b).descType == b[1]
  {
    assert b[b[0]..] == [];
  }

  // ----- the other standard requests

  lemma StatusReply(f: Facts, wValue: nat, wIndex: nat, n: nat, d: Decision)
    requires FactsOk(f) && AsTable(f, Request(0x80, 0, wValue, wIndex, n), d)
    ensures if n == 2 then Sends(d, [f.core.deviceStatus, 0], 2) else d.Reject?
  {
    hide WellFormed, Parse, FirstAnswer, InterfaceAnswer;
  }

  lemma SelectedReply(f: Facts, wValue: nat, wIndex: nat, n: nat, d: Decision)
    requires FactsOk(f) && AsTable(f, Request(0x80, 8, wValue, wIndex, n), d)
    ensures if n == 1 then Sends(d, [f.core.numConfiguration], 1) else d.Reject?
  {
    hide WellFormed, Parse, FirstAnswer, InterfaceAnswer;
  }

  /** The interface has its descriptors. */
  predicate HasIface(f: Facts, num: byte, alt: byte)
    requires FactsOk(f)
  {
    && 0 < f.core.numConfiguration
    && var b := f.core.configs[f.core.numConfiguration - 1];
    && num < b[4] && Selectable(b, num, alt)
  }

  lemma SettingReply(f: Facts, wValue: nat, num: byte, n: nat, d: Decision)
    requires FactsOk(f) && AsTable(f, Request(0x81, 10, wValue, num, n), d)
    ensures if n == 1 && HasIface(f, num, 0) then Sends(d, [f.core.setting[num]], 1) else d.Reject?
  {
    hide WellFormed, Parse, Selectable;
  }

  lemma HaltReply(f: Facts, wValue: nat, ep: nat, n: nat, d: Decision)
    requires FactsOk(f) && AsTable(f, Request(0x82, 0, wValue, ep, n), d)
    ensures if n == 2 then Sends(d, [if f.drv.halted then 1 else 0, 0], 2) else d.Reject?
  {
    NoOtherAnswer(f, Request(0x82, 0, wValue, ep, n));
  }

  /** What the core may leave to the UDIs: GET_DESCRIPTOR to an interface or endpoint, and the requests of
      the HID class. */
  predicate ForUdi(req: Request) {
    && req.bmRequestType % 32 in {1, 2}
    && (req.bmRequestType / 32, req.bRequest) in {(4, 6), (5, 1), (5, 2), (5, 3), (1, 9), (1, 10), (1, 11)}
  }

  /** The requests of the core. */
  predicate ForCore(req: Request) {
    (req.bmRequestType, req.bRequest) in
      {(0x80, 0), (0x80, 6), (0x80, 8), (0x81, 10), (0x82, 0), (0x00, 1), (0x00, 3), (0x00, 5), (0x00, 9),
       (0x01, 11), (0x02, 1), (0x02, 3)}
  }

  /** Nothing else is accepted, nor a request for no data. */
  lemma OthersRejected(f: Facts, req: Request, d: Decision)
    requires FactsOk(f) && AsTable(f, req, d)
    requires (IsIn(req) && req.wLength == 0) || !(ForCore(req) || ForUdi(req))
    ensures d.Reject?
  {
    hide WellFormed, Parse;
    if !ForUdi(req) {
      NoOtherAnswer(f, req);
    }
  }

  lemma NoOtherAnswer(f: Facts, req: Request)
    requires FactsOk(f) && !ForUdi(req)
    ensures UdiPart(f, req).None?
  {
    hide WellFormed, Parse;
    if req.bmRequestType % 32 == 2 {
      NoneAnswers(f, req, 0);
    }
  }

  lemma {:induction false} NoneAnswers(f: Facts, req: Request, num: nat)
    requires FactsOk(f) && num < 256 && !ForUdi(req) && req.bmRequestType % 32 == 2
    ensures FirstAnswer(f, req, num).None?
    decreases 256 - num
  {
    hide WellFormed, Parse, HidReply;
    if Present(f, num) && num < 255 {
      NoneAnswers(f, req, num + 1);
    }
  }

  /** The features the host can set and clear are remote wakeup of the device and the halt of an endpoint,
      for which the driver answers. */
  lemma FeatureAccepted(f: Facts, req: Request, d: Decision)
    requires FactsOk(f) && AsTable(f, req, d) && req.bmRequestType in {0, 2} && req.bRequest in {1, 3}
    ensures var willing := if req.bmRequestType == 0 then req.wValue == 1
                           else req.wValue == 0 && if req.bRequest == 1 then f.drv.clearHaltOk else f.drv.setHaltOk;
      if req.wLength == 0 && willing then Done(d) else d.Reject?
  {
    NoOtherAnswer(f, req);
    if d.Accept? {
      assert d.payload[..d.size] == [];
    }
  }

  /** SET_ADDRESS only registers the callback. */
  lemma AddressAccepted(f: Facts, wValue: nat, wIndex: nat, n: nat, d: Decision)
    requires FactsOk(f) && AsTable(f, Request(0, 5, wValue, wIndex, n), d)
    ensures if n == 0 then d.Accept? && d.callback.SetAddressFn? && d.size == 0 else d.Reject?
  {
    if d.Accept? {
      assert d.payload[..d.size] == [];
    }
  }

  // ----- the HID class

  /** The interface is there in the setting in use. */
  predicate InUse(f: Facts, num: byte)
    requires FactsOk(f)
  {
    HasIface(f, num, 0) && HasIface(f, num, f.core.setting[num])
  }

  /** An interface that is asked has its setting in use. */
  lemma PresentIs(f: Facts, num: byte)
    requires FactsOk(f)
    ensures Present(f, num) <==> HasIface(f, num, f.core.setting[num])
    ensures Present0(f, num) <==> HasIface(f, num, 0)
  {
    hide WellFormed, Parse, Selectable;
  }

  lemma HidReplies(f: Facts, bRequest: byte, wValue: nat, num: byte, n: nat, d: Decision)
    requires FactsOk(f) && 0 < n && AsTable(f, Request(0xA1, bRequest, wValue, num, n), d)
    ensures !InUse(f, num) ==> d.Reject?
    ensures InUse(f, num) && bRequest == 2 ==> Sends(d, [f.hid.rate], n)
    ensures InUse(f, num) && bRequest == 3 ==> Sends(d, [f.hid.protocol], n)
    ensures InUse(f, num) && bRequest == 1 ==>
      if wValue / 256 == 3 && wValue % 256 == 0 && n == |f.hid.feature|
      then d.Accept? && d.callback.OtherFn? && d.payload[..d.size] == f.hid.feature else d.Reject?
  {
    hide WellFormed, Parse, Selectable, HidReply;
    var req := Request(0xA1, bRequest, wValue, num, n);
    StandardType(f, req);
    assert Present0(f, num) && Present(f, num) <==> InUse(f, num);
  }

  lemma HidAccepted(f: Facts, bRequest: byte, wValue: nat, num: byte, n: nat, d: Decision)
    requires FactsOk(f) && AsTable(f, Request(0x21, bRequest, wValue, num, n), d)
    ensures !InUse(f, num) ==> d.Reject?
    ensures InUse(f, num) && bRequest == 10 ==> Done(d)
    ensures InUse(f, num) && bRequest == 11 ==> if n == 0 then Done(d) else d.Reject?
    ensures InUse(f, num) && bRequest == 9 ==>
      if wValue / 256 == 3 && wValue % 256 == 0 && n == |f.hid.feature|
      then d.Accept? && d.callback.OtherFn? && d.size == |f.hid.feature| else d.Reject?
  {
    hide WellFormed, Parse, Selectable, HidReply;
    var req := Request(0x21, bRequest, wValue, num, n);
    StandardType(f, req);
    assert Present0(f, num) && Present(f, num) <==> InUse(f, num);
    if d.Accept? {
      assert |d.payload[..d.size]| == d.size;
    }
  }

  /** The descriptor behind that of an interface, and the report descriptor it announces. */
  lemma HidDescriptors(f: Facts, kind: byte, index: byte, num: byte, n: nat, d: Decision)
    requires FactsOk(f) && 0 < n && AsTable(f, Request(0x81, 6, 256 * kind + index, num, n), d)
    ensures !InUse(f, num) ==> d.Reject?
    ensures InUse(f, num) ==> IfaceDescriptors(f, kind, num, n, d)
  {
    hide WellFormed, Parse, Selectable, HidReply, IfaceDescriptors;
    assert (256 * kind + index) / 256 % 256 == kind;
    var req := Request(0x81, 6, 256 * kind + index, num, n);
    assert Present0(f, num) && Present(f, num) <==> InUse(f, num);
    if InUse(f, num) {
      assert Answered(f, req) == HidAnswer(f, req, num);
      BehindIface(f, kind, index, num);
      IfaceReplies(f, kind, num, n, d, HidReply(f, FindIface(Parse(Current(f)), num, f.core.setting[num]), req.wValue));
    }
  }

  ghost predicate IfaceDescriptors(f: Facts, kind: byte, num: byte, n: nat, d: Decision)
    requires FactsOk(f) && InUse(f, num)
  {
    var ds := Parse(f.core.configs[f.core.numConfiguration - 1]);
    var i := FindIface(ds, num, f.core.setting[num]);
    i + 1 < |ds| && Fits(ds[i + 1]) &&
    var h := ds[i + 1];
    if h.descType != 0x21 then d.Reject?
    else if kind == 0x21 then Sends(d, [|h.body| + 2, 0x21] + h.body, n)
    else
      && 7 <= |h.body|
      && var size := (h.body[5] as int) + 256 * (h.body[6] as int);
      if kind == h.body[4] then size <= |f.dev.reportDesc| && Sends(d, f.dev.reportDesc[..size], n) else d.Reject?
  }

  /** The reply of the table to that request. */
  ghost predicate Behind(f: Facts, kind: byte, num: byte, reply: Option<seq<byte>>)
    requires FactsOk(f) && InUse(f, num)
  {
    var ds := Parse(f.core.configs[f.core.numConfiguration - 1]);
    var i := FindIface(ds, num, f.core.setting[num]);
    i + 1 < |ds| && Fits(ds[i + 1]) &&
    var h := ds[i + 1];
    if h.descType != 0x21 then reply.None?
    else if kind == 0x21 then reply == Some([|h.body| + 2, 0x21] + h.body)
    else
      && 7 <= |h.body|
      && var size := (h.body[5] as int) + 256 * (h.body[6] as int);
      if kind == h.body[4] then size <= |f.dev.reportDesc| && reply == Some(f.dev.reportDesc[..size]) else reply.None?
  }

  lemma IfaceReplies(f: Facts, kind: byte, num: byte, n: nat, d: Decision, reply: Option<seq<byte>>)
    requires FactsOk(f) && InUse(f, num) && Behind(f, kind, num, reply)
    requires if reply.Some? then Sends(d, reply.value, n) else d.Reject?
    ensures IfaceDescriptors(f, kind, num, n, d)
  {
    hide WellFormed, Parse, Selectable;
  }

  lemma BehindIface(f: Facts, kind: byte, index: byte, num: byte)
    requires FactsOk(f) && InUse(f, num)
    ensures var i := FindIface(Parse(Current(f)), num, f.core.setting[num]);
      i < |Parse(Current(f))| && Parse(Current(f))[i].descType == DT_INTERFACE
        && Behind(f, kind, num, HidReply(f, i, 256 * kind + index))
  {
    hide WellFormed, Parse;
    assert (256 * kind + index) / 256 % 256 == kind;
    var ds := Parse(Current(f));
    IfaceAt(Current(f), num, f.core.setting[num]);
    assert HidAt(f.dev, ds, FindIface(ds, num, f.core.setting[num]));
  }

  // ----- what the host sets and reads back

  /** The request is answered as in the table, with its effect. */
  ghost predicate Served(f: Facts, req: Request, d: Decision, g: Facts) {
    FactsOk(f) && FactsOk(g) && AsTable(f, req, d) && Effect(f, g, req, d.Accept?)
  }

  /** SET_FEATURE and CLEAR_FEATURE of remote wakeup show in GET_STATUS. */
  lemma WakeupRoundTrip(f: Facts, sets: bool, i: nat, d: Decision, g: Facts, v: nat, j: nat, d': Decision)
    requires Served(f, Request(0, if sets then 3 else 1, 1, i, 0), d, g)
    requires AsTable(g, Request(0x80, 0, v, j, 2), d')
    ensures d.Accept? && Sends(d', [if sets then 2 else 0, 0], 2)
  {
    hide WellFormed, Parse;
    StatusReply(g, v, j, 2, d');
  }

  /** SET_CONFIGURATION shows in GET_CONFIGURATION. */
  lemma ConfigurationRoundTrip(f: Facts, n: nat, i: nat, d: Decision, g: Facts, v: nat, j: nat, d': Decision)
    requires Served(f, Request(0, 9, n, i, 0), d, g) && d.Accept?
    requires AsTable(g, Request(0x80, 8, v, j, 1), d')
    ensures Sends(d', [n % 256], 1)
  {
    hide WellFormed, Parse, AllEnable, DefaultEps;
    SelectedReply(g, v, j, 1, d');
  }

  /** SET_INTERFACE shows in GET_INTERFACE. */
  lemma SettingRoundTrip(f: Facts, alt: byte, num: byte, d: Decision, g: Facts, v: nat, d': Decision)
    requires Served(f, Request(1, 11, alt, num, 0), d, g) && d.Accept?
    requires AsTable(g, Request(0x81, 10, v, num, 1), d')
    ensures Sends(d', [alt], 1)
  {
    hide WellFormed, Parse, Selectable, IfaceEps, AllNew;
    NoOtherAnswer(f, Request(1, 11, alt, num, 0));
    SettingReply(g, v, num, 1, d');
  }

  /** SET_IDLE shows in GET_IDLE: the upper byte of wValue is the rate. */
  lemma IdleRoundTrip(f: Facts, rate: byte, id: byte, num: byte, n: nat, d: Decision, g: Facts,
                      v: nat, m: nat, d': Decision)
    requires Served(f, Request(0x21, 10, 256 * rate + id, num, n), d, g) && d.Accept?
    requires 0 < m && AsTable(g, Request(0xA1, 2, v, num, m), d')
    ensures Sends(d', [rate], m) && g.hid == f.hid.(rate := rate)
  {
    hide WellFormed, Parse, Selectable;
    HidAccepted(f, 10, 256 * rate + id, num, n, d);
    assert (256 * rate + id) / 256 % 256 == rate;
    HidReplies(g, 2, v, num, m, d');
  }

  /** SET_PROTOCOL shows in GET_PROTOCOL. */
  lemma ProtocolRoundTrip(f: Facts, protocol: byte, num: byte, d: Decision, g: Facts, v: nat, m: nat, d': Decision)
    requires Served(f, Request(0x21, 11, protocol, num, 0), d, g) && d.Accept?
    requires 0 < m && AsTable(g, Request(0xA1, 3, v, num, m), d')
    ensures Sends(d', [protocol], m) && g.hid == f.hid.(protocol := protocol)
  {
    hide WellFormed, Parse, Selectable;
    HidAccepted(f, 11, protocol, num, 0, d);
    HidReplies(g, 3, v, num, m, d');
  }

  /** A selection that succeeds starts the interface with idle rate and protocol 0. */
  lemma SelectionResets(f: Facts, req: Request, d: Decision, g: Facts)
    requires Served(f, req, d, g) && d.Accept?
    requires (req.bmRequestType, req.bRequest) in {(0, 9), (1, 11)}
    requires req.bRequest == 9 ==> 0 < req.wValue % 256 && 0 < f.core.configs[req.wValue % 256 - 1][4]
    ensures g.hid.rate == 0 == g.hid.protocol && g.hid.feature == f.hid.feature
  {
    hide WellFormed, Parse, Selectable, IfaceEps;
    NoOtherAnswer(f, req);
    if req.bRequest == 9 {
      var b := f.core.configs[req.wValue % 256 - 1];
      AllEnableStep(b, f.drv.udiOk, 0, b[4]);
      assert CanEnable(b, f.drv.udiOk, 0) && DefaultEps(b, 0) == {};
    }
  }

  /** No other request changes what can be read back, except that enabling the interface resets it. */
  lemma OthersKeep(f: Facts, req: Request, d: Decision, g: Facts)
    requires Served(f, req, d, g) && (req.bmRequestType, req.bRequest) !in {(0, 1), (0, 3), (0, 9), (1, 11)}
    ensures g.core == f.core
    ensures !(d.Accept? && req.bmRequestType / 32 == 1 && req.bRequest in {10, 11}) ==> g.hid == f.hid
  {}
}
