/** The decoder of SETUP packets (udc_process_setup with the routines below it in udc.c, udi_hid.c
    and udi_hid_generic.c).  It tries the core, the interface and the endpoint requests in turn; its
    answer is compared with the table of module SetupRequests. */
module SetupDecoder {
  import opened Packets
  import opened Descriptors
  import opened UdcConfiguration
  import opened ControlSteps
  import opened SetupRequests
  import ControlData
  import opened ControlSafety

  /** The bytes at the place of the HID descriptor. */
  lemma HidBytes(dev: Device, b: seq<byte>, i: nat)
    requires IsConfiguration(b) && HidShaped(dev, b)
    requires i < |Parse(b)| && Parse(b)[i].descType == DT_INTERFACE
    ensures i + 1 < |Parse(b)|
    ensures var h := Parse(b)[i + 1]; var at := Offset(Parse(b), i) + 9;
      && at + Length(h) <= |b| && b[at] == Length(h) && b[at + 1] == h.descType
      && b[at..][..Length(h)] == Encode(h)
      && (h.descType == DT_HID ==>
            && Length(h) >= 9 && b[at + 6] == h.body[4] && b[at + 7] == h.body[5] && b[at + 8] == h.body[6])
  {
    hide Parse, WellFormed;
    BytesAt(b, i);
    BytesAt(b, i + 1);
    assert HidAt(dev, Parse(b), i);
    var h := Parse(b)[i + 1];
    var at := Offset(Parse(b), i) + 9;
    assert b[at..][..Length(h)] == b[at..at + Length(h)];
    forall k | 0 <= k < Length(h) ensures b[at + k] == Encode(h)[k] {
      assert b[at..at + Length(h)][k] == b[at + k];
    }
    assert b[at] == Encode(h)[0] && b[at + 1] == Encode(h)[1];
    if h.descType == DT_HID {
      assert b[at + 6] == Encode(h)[6] && b[at + 7] == Encode(h)[7] && b[at + 8] == Encode(h)[8];
    }
  }

  /** The reply of the table, in terms of the bytes behind the interface descriptor at iface. */
  predicate ReplyOfBytes(b: seq<byte>, iface: nat, reportDesc: seq<byte>, wValue: nat, reply: Option<seq<byte>>) {
    var at := iface + 9;
    && at + 1 < |b| && at + b[at] <= |b|
    && (b[at + 1] == DT_HID ==> at + 8 < |b| && Word(b[at + 7], b[at + 8]) <= |reportDesc|)
    && reply == if b[at + 1] != DT_HID then None
                else if wValue / 256 % 256 == DT_HID then Some(b[at..][..b[at]])
                else if b[at + 6] == wValue / 256 % 256 then Some(reportDesc[..Word(b[at + 7], b[at + 8])])
                else None
  }

  lemma HidReplyBytes(f: Facts, i: nat, wValue: nat)
    requires FactsOk(f) && f.core.numConfiguration > 0
    requires i < |Parse(Current(f))| && Parse(Current(f))[i].descType == DT_INTERFACE
    ensures ReplyOfBytes(Current(f), Offset(Parse(Current(f)), i), f.dev.reportDesc, wValue, HidReply(f, i, wValue))
  {
    hide Parse, WellFormed;
    HidBytes(f.dev, Current(f), i);
    assert HidAt(f.dev, Parse(Current(f)), i);
  }

  /** A standard OUT request is not for the UDI. */
  lemma NotForUdi(f: Facts, req: Request)
    requires FactsOk(f) && req.bmRequestType < 32
    ensures UdiPart(f, req).None?
  {
    NotForInterfaces(f, req, 0);
  }

  lemma {:induction false} NotForInterfaces(f: Facts, req: Request, num: nat)
    requires FactsOk(f) && num < 256 && req.bmRequestType < 32
    ensures FirstAnswer(f, req, num).None?
    decreases 256 - num
  {
    if Present(f, num) && num < 255 {
      NotForInterfaces(f, req, num + 1);
    }
  }

  /** Direction, type and recipient make up bmRequestType. */
  lemma RequestType(t: byte)
    ensures t / 32 % 4 == 0 && t < 0x80 ==> t < 32
    ensures t / 32 == (if t >= 0x80 then 4 else 0) + t / 32 % 4
    ensures t == 32 * (t / 32) + t % 32
  {}

  class Decoder {
    const dev: Device
    const core: DeviceCore
    /** udd_g_ctrlreq. */
    var req: Request
    var payload: seq<byte>
    var payloadSize: nat
    var callback: ReqCallback
    var overrun: bool
    /** The state of the HID interface. */
    var hid: Hid
    /** What the driver answers during this request. */
    var drv: Driver

    ghost predicate Valid()
      reads this`req, this`hid, core`numConfiguration, core`conf, core`setting, core`enabled, core`deviceStatus
    {
      Ready() && core.Owned() && core.deviceStatus in {0, 2}
    }

    ghost predicate Ready()
      reads this`req, this`hid, core`numConfiguration, core`conf, core`setting
    {
      DeviceOk(dev, core.configs) && core.Valid() && RequestOk(req) && |hid.feature| < WORD
    }

    ghost function View(): (f: Facts)
      requires Ready()
      reads this`req, this`hid, this`drv, core`numConfiguration, core`conf, core`setting
      reads core`address, core`enabled, core`deviceStatus
      ensures FactsOk(f)
    {
      Facts(dev, core.View(), hid, drv)
    }

    /** No data and no callback. */
    ghost predicate Blank()
      reads this`payloadSize, this`callback
    {
      payloadSize == 0 && callback == NoCallback
    }

    ghost predicate Holds(data: seq<byte>)
      reads this`payload, this`payloadSize
    {
      payloadSize == |data| && payloadSize <= |payload| && payload[..payloadSize] == data
    }

    /** An answer has been given as the table says, or nothing has been touched. */
    ghost predicate Gives(ok: bool, a: Option<Decoded>)
      reads this`req, this`payload, this`payloadSize, this`callback
    {
      && (ok <==> a.Some?)
      && (if ok then
            callback == a.value.callback && Holds(if IsIn(req) then Cut(a.value.data, req.wLength) else a.value.data)
          else Blank())
    }

    constructor (dev: Device, core: DeviceCore, feature: seq<byte>, drv: Driver)
      requires DeviceOk(dev, core.configs) && core.Valid() && core.Owned() && core.deviceStatus == 0
      requires |feature| < WORD
      ensures Valid() && this.dev == dev && this.core == core && hid == Hid(0, 0, feature)
    {
      this.dev, this.core, this.drv := dev, core, drv;
      req, payload, payloadSize, callback, overrun := NO_REQUEST, [], 0, NoCallback, false;
      hid := Hid(0, 0, feature);
    }

    /** udd_set_setup_payload. */
    method SetPayload(data: seq<byte>, size: nat)
      requires size == |data|
      modifies this`payload, this`payloadSize
      ensures Holds(data)
    {
      payload, payloadSize := data, size;
      assert payload[..payloadSize] == data;
    }

    /** The loop of udc_req_std_dev_get_str_desc. */
    static method WidenName(name: seq<byte>) returns (s: seq<byte>)
      requires |name| <= 126
      ensures s == StringDescriptor(name)
    {
      s := [2 + |name| * 2, 3];
      ghost var header := s;
      for i := 0 to |name|
        invariant s == header + Widen(name[..i])
      {
        assert name[..i + 1][..i] == name[..i];
        s := s + [name[i], 0];
      }
      assert name[..|name|] == name;
    }

    /** udc_req_std_dev_get_str_desc. */
    method GetStrDesc() returns (ok: bool)
      requires Ready() && Blank()
      modifies this`payload, this`payloadSize
      ensures var reply := StringReply(dev, req.wValue % 256);
        (ok <==> reply.Some?) && (if ok then Holds(reply.value) else Blank())
    {
      var index := req.wValue % 256;
      var name := [];
      if index == 0 {
        SetPayload(LANGUAGES, 4);
      } else {
        if index > 3 {
          return false;
        }
        if dev.names[index - 1].None? {
          return false;
        }
        name := dev.names[index - 1].value;
      }
      if |name| != 0 {
        var s := WidenName(name);
        SetPayload(s, 2 + |name| * 2);
      }
      ok := true;
    }

    /** udc_req_std_dev_get_descriptor. */
    method GetDescriptor() returns (ok: bool)
      requires Ready() && Blank() && IsIn(req)
      modifies this`payload, this`payloadSize
      ensures Gives(ok, Plain(DescriptorReply(View(), req.wValue)))
    {
      var kind, index := req.wValue / 256 % 256, req.wValue % 256;
      if kind == 1 {
        SetPayload(dev.deviceDesc, dev.deviceDesc[0]);
      } else if kind == 2 {
        if index >= |core.configs| {
          return false;
        }
        var b := core.configs[index];
        SetPayload(b, Word(b[2], b[3]));
      } else if kind == 3 {
        ok := GetStrDesc();
        if !ok {
          return false;
        }
      } else {
        return false;
      }
      if req.wLength < payloadSize {
        payloadSize := req.wLength;
      }
      ok := true;
    }

    /** udi_hid_reqstdifaceget_descriptor. */
    method HidGetDescriptor(ghost reply: Option<seq<byte>>) returns (ok: bool)
      requires Blank() && IsIn(req) && core.conf < |core.configs|
      requires ReplyOfBytes(core.configs[core.conf], core.ptrIface, dev.reportDesc, req.wValue, reply)
      modifies this`payload, this`payloadSize
      ensures Gives(ok, Plain(reply))
    {
      var b := core.configs[core.conf];
      var at := core.ptrIface + 9;
      if b[at + 1] != DT_HID {
        return false;
      }
      if req.wValue / 256 % 256 == DT_HID {
        SetPayloadCut(b[at..], b[at]);
        return true;
      }
      if b[at + 6] == req.wValue / 256 % 256 {
        SetPayloadCut(dev.reportDesc, Word(b[at + 7], b[at + 8]));
        return true;
      }
      ok := false;
    }

    /** A payload of at most wLength bytes. */
    method SetPayloadCut(data: seq<byte>, size: nat)
      requires size <= |data|
      modifies this`payload, this`payloadSize
      ensures Holds(Cut(data[..size], req.wLength))
    {
      payload := data;
      payloadSize := if req.wLength < size then req.wLength else size;
    }

    /** udi_hid_generic_setreport. */
    method SetReport() returns (ok: bool)
      requires Blank()
      modifies this`payload, this`payloadSize, this`callback
      ensures Gives(ok, if FeatureReport(req, hid.feature) then Some(Decoded(hid.feature, OtherFn)) else None)
    {
      if req.wValue / 256 == 3 && req.wValue % 256 == 0 && |hid.feature| == req.wLength {
        payload := hid.feature;
        callback := OtherFn;
        payloadSize := |hid.feature|;
        return true;
      }
      ok := false;
    }

    /** udi_hid_setup, with udc_ptr_iface at the descriptor in use of an interface. */
    method HidSetup(ghost reply: Option<seq<byte>>) returns (ok: bool)
      requires Blank() && (IsIn(req) ==> 0 < req.wLength) && core.conf < |core.configs|
      requires ReplyOfBytes(core.configs[core.conf], core.ptrIface, dev.reportDesc, req.wValue, reply)
      modifies this`payload, this`payloadSize, this`callback, this`hid
      ensures Gives(ok, UdiAnswer(req, reply, old(hid))) && hid == AfterUdi(old(hid), req, ok)
    {
      var kind := req.bmRequestType / 32 % 4;
      RequestType(req.bmRequestType);
      if IsIn(req) {
        if kind == 0 {
          if req.bRequest == 6 {
            ok := HidGetDescriptor(reply);
            return;
          }
        }
        if kind == 1 {
          if req.bRequest == 1 {
            ok := SetReport();
            return;
          } else if req.bRequest == 2 {
            SetPayload([hid.rate], 1);
            return true;
          } else if req.bRequest == 3 {
            SetPayload([hid.protocol], 1);
            return true;
          }
        }
      }
      if !IsIn(req) {
        if kind == 1 {
          if req.bRequest == 9 {
            ok := SetReport();
            return;
          } else if req.bRequest == 10 {
            hid := hid.(rate := req.wValue / 256 % 256);
            return true;
          } else if req.bRequest == 11 {
            if 0 != req.wLength {
              return false;
            }
            hid := hid.(protocol := req.wValue % 256);
            return true;
          }
        }
      }
      ok := false;
    }

    /** The reply of the table for the interface udc_ptr_iface points to. */
    ghost method PointAt(num: byte) returns (reply: Option<seq<byte>>)
      requires Ready() && Present(View(), num)
      requires core.ptrIface == Offset(Parse(core.Bytes()), FindIface(Parse(core.Bytes()), num, core.setting[num]))
      ensures ReplyOfBytes(core.configs[core.conf], core.ptrIface, dev.reportDesc, req.wValue, reply)
      ensures UdiAnswer(req, reply, hid) == HidAnswer(View(), req, num)
    {
      var i := FindIface(Parse(core.Bytes()), num, core.setting[num]);
      IfaceAt(core.Bytes(), num, core.setting[num]);
      HidReplyBytes(View(), i, req.wValue);
      reply := HidReply(View(), i, req.wValue);
    }

    /** udc_req_iface. */
    method ReqIface() returns (ok: bool)
      requires Ready() && Blank() && (IsIn(req) ==> 0 < req.wLength)
      modifies this`payload, this`payloadSize, this`callback, this`hid, core`ptrIface
      ensures Gives(ok, InterfaceAnswer(old(View()), req))
      ensures hid == AfterUdi(old(hid), req, ok)
    {
      var num := req.wIndex % 256;
      var found := HasDefault(num);
      if !found {
        return false;
      }
      found, ok := AskUdi(num);
    }

    /** The checks of a request to an interface: its default setting exists. */
    method HasDefault(num: byte) returns (found: bool)
      requires Ready()
      modifies core`ptrIface
      ensures found <==> Present0(View(), num)
    {
      if core.numConfiguration == 0 {
        return false;
      }
      if num >= core.configs[core.conf][4] {
        return false;
      }
      found := core.UpdateIfaceDesc(num, 0);
    }

    /** udc_req_ep: the interfaces are asked in turn. */
    method ReqEp() returns (ok: bool)
      requires Ready() && Blank() && (IsIn(req) ==> 0 < req.wLength)
      modifies this`payload, this`payloadSize, this`callback, this`hid, core`ptrIface
      ensures Gives(ok, FirstAnswer(old(View()), req, 0))
      ensures hid == AfterUdi(old(hid), req, ok)
    {
      hide DeviceOk, HidAnswer, Cut, Parse, WellFormed;
      if 0 == core.numConfiguration {
        return false;
      }
      var n := core.configs[core.conf][4];
      var i: nat := 0;
      ghost var f := View();
      while i < n
        invariant i <= n && Ready() && Blank() && View() == f
        invariant FirstAnswer(f, req, i) == FirstAnswer(f, req, 0)
      {
        var found;
        found, ok := AskUdi(i);
        if !found {
          return false;
        }
        if ok {
          return true;
        }
        i := i + 1;
      }
      ok := false;
    }

    /** One round of its loop: the UDI of an interface is asked if its active setting exists. */
    method AskUdi(num: byte) returns (found: bool, ok: bool)
      requires Ready() && Blank() && (IsIn(req) ==> 0 < req.wLength)
      modifies this`payload, this`payloadSize, this`callback, this`hid, core`ptrIface
      ensures Ready() && (found <==> Present(old(View()), num))
      ensures Gives(ok, if found then HidAnswer(old(View()), req, num) else None)
      ensures View() == old(View()).(hid := AfterUdi(old(hid), req, ok))
    {
      hide FactsOk, DeviceOk, CoreOk, HidAnswer, Cut, UdiAnswer, Parse, WellFormed;
      found := core.UpdateIfaceDesc(num, core.setting[num]);
      if !found {
        return false, false;
      }
      ghost var reply := PointAt(num);
      ok := HidSetup(reply);
    }

    // ----- udc_reqstd

    method DevGetStatus() returns (ok: bool)
      requires Blank()
      modifies this`payload, this`payloadSize
      ensures Gives(ok, When(req.wLength == 2, [core.deviceStatus, 0])) || !IsIn(req)
    {
      if req.wLength != 2 {
        return false;
      }
      SetPayload([core.deviceStatus, 0], 2);
      ok := true;
    }

    method EpGetStatus() returns (ok: bool)
      requires Blank()
      modifies this`payload, this`payloadSize
      ensures Gives(ok, When(req.wLength == 2, [if drv.halted then 1 else 0, 0])) || !IsIn(req)
    {
      if req.wLength != 2 {
        return false;
      }
      SetPayload([if drv.halted then 1 else 0, 0], 2);
      ok := true;
    }

    method DevGetConfiguration() returns (ok: bool)
      requires Blank() && core.numConfiguration < 256
      modifies this`payload, this`payloadSize
      ensures Gives(ok, When(req.wLength == 1, [core.numConfiguration])) || !IsIn(req)
    {
      if req.wLength != 1 {
        return false;
      }
      SetPayload([core.numConfiguration], 1);
      ok := true;
    }

    method IfaceGetSetting() returns (ok: bool)
      requires Ready() && Blank() && IsIn(req)
      modifies this`payload, this`payloadSize, core`ptrIface
      ensures var num := req.wIndex % 256;
        Gives(ok, When(req.wLength == 1 && Present0(old(View()), num), [core.setting[num]]))
    {
      if req.wLength != 1 {
        return false;
      }
      var num := req.wIndex % 256;
      var found := HasDefault(num);
      if !found {
        return false;
      }
      SetPayload([core.setting[num]], 1);
      ok := true;
    }

    /** The GET requests of udc_reqstd. */
    method ReqStdGet() returns (ok: bool)
      requires Ready() && Blank() && IsIn(req) && req.bmRequestType / 32 % 4 == 0
      modifies this`payload, this`payloadSize, core`ptrIface
      ensures Ready() && Gives(ok, if req.wLength == 0 then None else StandardGet(old(View()), req))
    {
      if req.wLength == 0 {
        return false;
      }
      var recipient := req.bmRequestType % 32;
      RequestType(req.bmRequestType);
      if recipient == 0 {
        if req.bRequest == 0 {
          ok := DevGetStatus();
          return;
        } else if req.bRequest == 6 {
          ok := GetDescriptor();
          return;
        } else if req.bRequest == 8 {
          ok := DevGetConfiguration();
          return;
        }
      }
      if recipient == 1 {
        if req.bRequest == 10 {
          ok := IfaceGetSetting();
          return;
        }
      }
      if recipient == 2 {
        if req.bRequest == 0 {
          ok := EpGetStatus();
          return;
        }
      }
      ok := false;
    }

    method DevClearFeature() returns (ok: bool)
      requires Blank() && core.deviceStatus in {0, 2}
      modifies core`deviceStatus
      ensures ok <==> req.wLength == 0 && req.wValue == 1
      ensures core.deviceStatus == if ok then 0 else old(core.deviceStatus)
    {
      if req.wLength != 0 {
        return false;
      }
      if req.wValue == 1 {
        core.deviceStatus := if core.deviceStatus / 2 % 2 == 1 then core.deviceStatus - 2 else core.deviceStatus;
        return true;
      }
      ok := false;
    }

    method DevSetFeature() returns (ok: bool)
      requires core.deviceStatus in {0, 2}
      modifies core`deviceStatus
      ensures ok <==> req.wLength == 0 && req.wValue == 1
      ensures core.deviceStatus == if ok then 2 else old(core.deviceStatus)
    {
      if req.wLength != 0 {
        return false;
      }
      if req.wValue == 1 {
        core.deviceStatus := if core.deviceStatus / 2 % 2 == 1 then core.deviceStatus else core.deviceStatus + 2;
        return true;
      }
      ok := false;
    }

    /** udi_hid_generic_enable, which the core calls after it has allocated the endpoints. */
    method HidEnable()
      modifies this`hid
      ensures hid == Enabled(old(hid))
    {
      hid := hid.(rate := 0);
      hid := hid.(protocol := 0);
    }

    method DevSetConfiguration() returns (ok: bool)
      requires Valid() && Blank() && req.bmRequestType == 0 && req.bRequest == 9
      modifies this`hid, core
      ensures Valid() && Gives(ok, StandardSet(old(View()), req)) && Effect(old(View()), View(), req, ok)
    {
      hide DeviceOk, Cut, Parse, WellFormed, SetConfReaches, SetConfAccepted, Selected;
      ghost var f := View();
      var called;
      ok, called := core.SetConfiguration(req.wValue, req.wLength, drv.udiOk);
      if called {
        HidEnable();
      }
      SetConfEffect(f, View(), req, ok, called);
    }

    method IfaceSetSetting() returns (ok: bool)
      requires Valid() && Blank() && req.bmRequestType == 1 && req.bRequest == 11
      modifies this`hid, core
      ensures Valid() && Gives(ok, StandardSet(old(View()), req)) && Effect(old(View()), View(), req, ok)
    {
      hide DeviceOk, Cut, Parse, WellFormed, SetIfaceDone, SetIfaceReaches;
      ghost var f := View();
      var called;
      ok, called := core.SetInterface(req.wValue, req.wIndex, req.wLength, drv.udiOk[req.wIndex % 256]);
      if called {
        HidEnable();
      }
      SetIfaceEffect(f, View(), req, ok, called);
    }

    /** The SET requests of udc_reqstd. */
    method ReqStdSet() returns (ok: bool)
      requires Valid() && Blank() && !IsIn(req) && req.bmRequestType / 32 % 4 == 0
      modifies this`callback, this`hid, core
      ensures Valid() && Gives(ok, StandardSet(old(View()), req))
      ensures Effect(old(View()), View(), req, ok)
    {
      hide DeviceOk, Cut, Parse, WellFormed, SetConfDone, SetConfReaches, SetIfaceDone, SetIfaceReaches;
      var recipient := req.bmRequestType % 32;
      RequestType(req.bmRequestType);
      if recipient == 0 {
        if req.bRequest == 5 {
          if req.wLength != 0 {
            return false;
          }
          callback := SetAddressFn;
          return true;
        } else if req.bRequest == 1 {
          ok := DevClearFeature();
          return;
        } else if req.bRequest == 3 {
          ok := DevSetFeature();
          return;
        } else if req.bRequest == 9 {
          ok := DevSetConfiguration();
          return;
        }
      }
      if recipient == 1 {
        if req.bRequest == 11 {
          ok := IfaceSetSetting();
          return;
        }
      }
      if recipient == 2 {
        if req.bRequest == 1 {
          ok := req.wLength == 0 && req.wValue == 0 && drv.clearHaltOk;
          return;
        } else if req.bRequest == 3 {
          ok := req.wLength == 0 && req.wValue == 0 && drv.setHaltOk;
          return;
        }
      }
      ok := false;
    }

    /** udc_reqstd. */
    method ReqStd() returns (ok: bool)
      requires Valid() && Blank() && req.bmRequestType / 32 % 4 == 0
      modifies this`payload, this`payloadSize, this`callback, this`hid, core
      ensures Valid() && Effect(old(View()), View(), req, ok)
      ensures Gives(ok, if IsIn(req) && req.wLength == 0 then None else Standard(old(View()), req))
      ensures !ok ==> UdiPart(View(), req) == UdiPart(old(View()), req)
      ensures !IsIn(req) ==> UdiPart(View(), req) == None
    {
      RequestType(req.bmRequestType);
      if IsIn(req) {
        ok := ReqStdGet();
      } else {
        NotForUdi(View(), req);
        ok := ReqStdSet();
        NotForUdi(View(), req);
      }
    }

    /** The requests that go to the UDIs. */
    method ReqUdi() returns (ok: bool)
      requires Valid() && Blank() && (IsIn(req) ==> 0 < req.wLength)
      modifies this`payload, this`payloadSize, this`callback, this`hid, core`ptrIface
      ensures Valid() && Gives(ok, UdiPart(old(View()), req))
      ensures View() == old(View()).(hid := AfterUdi(old(hid), req, ok))
    {
      hide FactsOk, DeviceOk, CoreOk, FirstAnswer, InterfaceAnswer, Cut;
      ok := false;
      if req.bmRequestType % 32 == 1 {
        ok := ReqIface();
        if ok {
          return;
        }
      }
      if req.bmRequestType % 32 == 2 {
        ok := ReqEp();
      }
    }

    /** The order of udc_process_setup: the core first, then the UDIs. */
    method Decode() returns (ok: bool)
      requires Valid() && Blank()
      modifies this`payload, this`payloadSize, this`callback, this`hid, core
      ensures Valid() && Gives(ok, Answered(old(View()), req))
      ensures Effect(old(View()), View(), req, ok)
    {
      ghost var f := View();
      if IsIn(req) && req.wLength == 0 {
        CoreUntouched(f, req);
        return false;
      }
      if req.bmRequestType / 32 % 4 == 0 {
        ok := ReqStd();
        if ok {
          return true;
        }
      } else {
        StandardType(f, req);
        CoreUntouched(f, req);
      }
      ghost var g := View();
      ok := ReqUdi();
      CoreThenUdi(f, g, req, ok);
    }

    /** udc_process_setup: the answer is the one of the table and one the control endpoint can rely on;
        a reply is empty exactly if the host asks for an empty name. */
    method ProcessSetup() returns (d: Decision)
      requires Valid()
      modifies this`payload, this`payloadSize, this`callback, this`overrun, this`hid, core
      ensures Valid() && AsTable(old(View()), req, d)
      ensures Effect(old(View()), View(), req, d.Accept?)
      ensures DecisionOk(req, d)
      ensures d.Accept? && IsIn(req) ==> (d.size == 0 <==> AsksEmptyName(old(View()), req))
    {
      payloadSize := 0;
      callback := NoCallback;
      overrun := false;
      ghost var f := View();
      var ok := Decode();
      if ok {
        d := Accept(payload, payloadSize, callback, overrun);
        AnswersAreOk(f, req, d);
      } else {
        d := Reject;
      }
    }
  }

  /** The decoder and the control endpoint together: whatever request came before, an accepted IN
      request puts the reply of the table on the bus, cut to wLength, in packets of the endpoint's
      size, with a zero-length packet exactly when section 5.5.3 of USB 2.0 asks for it. */
  lemma ReplyReachesHost(f: Facts, req: Request, d: Decision, c: Control, answer: Answer) returns (n: nat)
    requires FactsOk(f) && RequestOk(req) && AsTable(f, req, d) && d.Accept? && IsIn(req)
    requires !AsksEmptyName(f, req) && Words(c) && AnswerOk(answer)
    ensures var evs := [EvSetup(8, req, d, answer)] + Repeat(EvInSent(Decline), n);
      && Possible(c, evs)
      && var after := Run(c, evs);
      && after.state.HandshakeWaitOutZlp? && after.rq.callback == d.callback && after.rq.req == req
      && after.hist.wire == ControlData.Wanted(Cut(Answered(f, req).value.data, req.wLength), req.wLength)
  {
    AnswersAreOk(f, req, d);
    n := ControlData.InTransfer(c, req, d, answer);
  }

  /** And for data from the host: what the decoder accepts has one buffer, that of the feature report
      or none, so a small feature report is safe against every host, and one that can be counted
      against every host that sends its data. */
  lemma OutAnswersHaveRoom(f: Facts, req: Request, d: Decision)
    requires FactsOk(f) && AsTable(f, req, d) && d.Accept? && !IsIn(req)
    ensures !d.overrun && d.size in {0, |f.hid.feature|}
    ensures |f.hid.feature| <= EP_CTRL_SIZE ==> OnePacket(req.wLength, d.size)
    ensures |f.hid.feature| <= ControlData.LAST_COUNT ==> ControlData.Countable(req.wLength, d.overrun, d.size)
  {
    AcceptedRoom(f, req);
    assert |d.payload[..d.size]| == d.size;
  }
}
