/** What SET_CONFIGURATION and SET_INTERFACE mean to the host: when they are refused, and which endpoints
    are in use afterwards, in terms of the descriptors. */
module Selections {
  import opened Packets
  import opened Descriptors
  import opened UdcConfiguration

  // ----- the endpoints of a setting

  /** The first descriptor of interface num in setting alt. */
  ghost predicate FirstIface(ds: seq<Descriptor>, num: byte, alt: byte, i: nat)
    requires AllFit(ds)
  {
    && i < |ds| && ds[i].descType == 4 && ds[i].body[0] == num && ds[i].body[1] == alt
    && forall j :: 0 <= j < i ==> !(ds[j].descType == 4 && ds[j].body[0] == num && ds[j].body[1] == alt)
  }

  /** Descriptor j is that of an endpoint of the interface descriptor i. */
  ghost predicate EndpointOf(ds: seq<Descriptor>, i: nat, j: nat) {
    i < j < |ds| && ds[j].descType == 5 && forall l :: i < l < j ==> ds[l].descType != 4
  }

  /** The entry of an endpoint: twice its number, and one more for IN. */
  ghost predicate HasEndpoint(b: seq<byte>, num: byte, alt: byte, k: byte)
    requires IsConfiguration(b)
  {
    exists i: nat :: FirstIface(Parse(b), num, alt, i) && HasEntry(Parse(b), i, k)
  }

  ghost predicate HasEntry(ds: seq<Descriptor>, i: nat, k: byte) {
    exists j: nat :: EndpointOf(ds, i, j) && EntryAt(ds[j], k)
  }

  predicate EntryAt(d: Descriptor, k: byte) {
    0 < |d.body| && k == 2 * (d.body[0] % 16) + (if d.body[0] >= 0x80 then 1 else 0)
  }

  lemma {:induction false} EntriesAt(ds: seq<Descriptor>, ps: seq<nat>, l: nat)
    requires AllFit(ds) && forall m :: 0 <= m < |ps| ==> ps[m] < |ds| && ds[ps[m]].descType == DT_ENDPOINT
    requires l < |ps|
    ensures EntryAt(ds[ps[l]], Entries(ds, ps)[l])
    decreases l
  {
    if l > 0 {
      EntriesAt(ds, ps[1..], l - 1);
    }
  }

  lemma FirstIfaceIs(ds: seq<Descriptor>, num: byte, alt: byte, i: nat)
    requires AllFit(ds)
    ensures FirstIface(ds, num, alt, i) <==> i < |ds| && FindIface(ds, num, alt) == i
  {
    if i < |ds| {
      FindIfaceUnique(ds, num, alt, i);
      assert forall j :: 0 <= j < i ==> (IsIface(ds[j], num, alt) <==>
        ds[j].descType == 4 && ds[j].body[0] == num && ds[j].body[1] == alt);
    }
  }

  /** The walks and searches of the core find exactly these endpoints. */
  lemma IfaceEpsMeans(b: seq<byte>, num: byte, alt: byte, k: byte)
    requires IsConfiguration(b)
    ensures k in ToSet(IfaceEps(b, num, alt)) <==> HasEndpoint(b, num, alt, k)
    ensures Selectable(b, num, alt) <==> exists i: nat :: FirstIface(Parse(b), num, alt, i)
  {
    hide WellFormed, HasEntry, HasEndpoint, FirstIface, EpsFrom, FindIface;
    var ds := Parse(b);
    var i := FindIface(ds, num, alt);
    FoundFirst(ds, num, alt);
    EndpointsOfFirst(b, num, alt, k);
    if i < |ds| {
      EpsFromMeans(ds, i, k);
    }
  }

  lemma FoundFirst(ds: seq<Descriptor>, num: byte, alt: byte)
    requires AllFit(ds)
    ensures var i := FindIface(ds, num, alt);
      && (forall m: nat :: FirstIface(ds, num, alt, m) ==> m == i < |ds|)
      && (i < |ds| ==> FirstIface(ds, num, alt, i))
  {
    hide FirstIface, FindIface;
    forall m: nat ensures FirstIface(ds, num, alt, m) <==> m < |ds| && FindIface(ds, num, alt) == m {
      FirstIfaceIs(ds, num, alt, m);
    }
  }

  lemma EndpointsOfFirst(b: seq<byte>, num: byte, alt: byte, k: byte)
    requires IsConfiguration(b)
    ensures var ds := Parse(b); var i := FindIface(ds, num, alt);
      HasEndpoint(b, num, alt, k) <==> i < |ds| && HasEntry(ds, i, k)
  {
    hide WellFormed, Parse, HasEntry, FirstIface, FindIface;
    FoundFirst(Parse(b), num, alt);
  }

  lemma EpsFromMeans(ds: seq<Descriptor>, i: nat, k: byte)
    requires AllFit(ds) && i < |ds|
    ensures k in EpsFrom(ds, i + 1) <==> HasEntry(ds, i, k)
  {
    hide Ahead, Entries, Fits;
    var ps := Ahead(ds, DT_ENDPOINT, i + 1);
    AheadSpec(ds, DT_ENDPOINT, i + 1);
    forall l | 0 <= l < |ps| ensures EndpointOf(ds, i, ps[l]) && EntryAt(ds[ps[l]], EpsFrom(ds, i + 1)[l]) {
      assert ps[l] in ps;
      EntriesAt(ds, ps, l);
    }
    if k in EpsFrom(ds, i + 1) {
      var l :| 0 <= l < |ps| && EpsFrom(ds, i + 1)[l] == k;
      assert EndpointOf(ds, i, ps[l]);
    }
    if j: nat :| EndpointOf(ds, i, j) && EntryAt(ds[j], k) {
      assert j in ps;
      var l :| 0 <= l < |ps| && ps[l] == j;
      assert EpsFrom(ds, i + 1)[l] == k;
    }
  }

  /** Some interface below n has the endpoint in its default setting. */
  ghost predicate DefaultHas(b: seq<byte>, n: nat, k: byte)
    requires IsConfiguration(b) && n < 256
  {
    exists num: nat :: num < n && HasEndpoint(b, num, 0, k)
  }

  lemma {:induction false} DefaultEpsMean(b: seq<byte>, n: nat, k: byte)
    requires IsConfiguration(b) && n < 256
    ensures k in DefaultEps(b, n) <==> DefaultHas(b, n, k)
  {
    hide HasEndpoint, IsConfiguration, IfaceEps, Selectable;
    if n > 0 {
      DefaultEpsMean(b, n - 1, k);
      IfaceEpsMeans(b, n - 1, 0, k);
      DefaultHasNext(b, n, k);
    }
  }

  lemma DefaultHasNext(b: seq<byte>, n: nat, k: byte)
    requires IsConfiguration(b) && 0 < n < 256
    ensures DefaultHas(b, n, k) <==> DefaultHas(b, n - 1, k) || HasEndpoint(b, n - 1, 0, k)
  {
    hide HasEndpoint, IsConfiguration;
    if DefaultHas(b, n, k) {
      var num: nat :| num < n && HasEndpoint(b, num, 0, k);
      assert num < n - 1 || num == n - 1;
    }
    if DefaultHas(b, n - 1, k) {
      var num: nat :| num < n - 1 && HasEndpoint(b, num, 0, k);
    }
  }

  // ----- SET_CONFIGURATION

  /** It is refused at once, and changes nothing, exactly for data, before the device has an address, and
      for an unknown configuration.  Any other value is the configuration afterwards, 0 included. */
  lemma SetConfRefusedIff(c: Core, d: Core, wValue: nat, wLength: nat, udiOk: Answers, ok: bool)
    requires CoreOk(c) && CoreOk(d) && SetConfDone(c, d, wValue, wLength, udiOk, ok)
    ensures var refused := wLength > 0 || c.address == 0 || |c.configs| < wValue % 256;
      if refused then !ok && d == c
      else
        && d.numConfiguration == wValue % 256 && d.deviceStatus == 0
        && d.address == c.address && d.configs == c.configs
  {
    hide AllEnable, DefaultEps;
  }

  /** Value 0 always succeeds then, and leaves no configuration and no endpoint in use. */
  lemma Deconfigured(c: Core, d: Core, wValue: nat, udiOk: Answers, ok: bool)
    requires CoreOk(c) && CoreOk(d) && c.address != 0 && wValue % 256 == 0
    requires SetConfDone(c, d, wValue, 0, udiOk, ok)
    ensures ok && d.numConfiguration == 0 && d.enabled == {}
  {}

  /** Another value succeeds exactly if every interface of that configuration has a default setting and a
      willing UDI and no endpoint occurs twice; then exactly the endpoints of the default settings are in
      use. */
  lemma ConfigurationSelected(c: Core, d: Core, wValue: nat, udiOk: Answers, ok: bool, k: byte)
    requires CoreOk(c) && CoreOk(d) && c.address != 0 && 0 < wValue % 256 <= |c.configs|
    requires SetConfDone(c, d, wValue, 0, udiOk, ok)
    ensures var b := c.configs[wValue % 256 - 1];
      && (ok <==> NoDuplicates(DefaultList(b, b[4]))
                  && forall i: nat :: i < b[4] ==> Selectable(b, i, 0) && udiOk[i])
      && (ok ==> (k in d.enabled <==> DefaultHas(b, b[4], k)))
  {
    hide WellFormed, Parse, AllEnable, DefaultList, DefaultHas, DefaultEps, NoDuplicates;
    var b := c.configs[wValue % 256 - 1];
    AllEnableIff(b, udiOk, b[4]);
    DefaultEpsMean(b, b[4], k);
  }

  // ----- SET_INTERFACE

  /** The default setting of the interface, the one in use and the one asked for exist. */
  ghost predicate SettingsExist(b: seq<byte>, num: byte, current: byte, alt: byte)
    requires IsConfiguration(b)
  {
    num < b[4] && Selectable(b, num, 0) && Selectable(b, num, current) && Selectable(b, num, alt)
  }

  /** An endpoint of the new setting is in use elsewhere, or occurs twice. */
  ghost predicate Clashes(c: Core, b: seq<byte>, num: byte, alt: byte)
    requires IsConfiguration(b) && |c.setting| == 256
  {
    || !NoDuplicates(IfaceEps(b, num, alt))
    || exists k :: k in c.enabled && HasEndpoint(b, num, alt, k) && !HasEndpoint(b, num, c.setting[num], k)
  }

  /** SET_INTERFACE succeeds exactly for existing settings of an interface of the configuration in use
      whose new endpoints clash with nothing and whose UDI is willing; then the interface has the new
      setting, and its new endpoints are in use in place of the old ones. */
  lemma SettingSelected(c: Core, d: Core, wValue: nat, wIndex: nat, udiOk: bool, ok: bool)
    requires CoreOk(c) && SetIfaceDone(c, d, wValue, wIndex, 0, udiOk, ok)
    ensures var num, alt := wIndex % 256, wValue % 256;
      && (ok <==>
            && c.numConfiguration > 0 && udiOk
            && var b := c.configs[c.numConfiguration - 1];
            && SettingsExist(b, num, c.setting[num], alt) && !Clashes(c, b, num, alt))
      && (ok ==> SettingIs(c, d, num, alt))
  {
    hide WellFormed, Parse, HasEndpoint, IfaceEps, Selectable, AllNew;
    if c.numConfiguration > 0 {
      var b, num, alt := c.configs[c.numConfiguration - 1], wIndex % 256, wValue % 256;
      SettingEps(c, b, num, alt);
      if ok {
        SettingEpsAfter(c, d, b, num, alt);
      }
    }
  }

  ghost predicate SettingIs(c: Core, d: Core, num: byte, alt: byte)
    requires CoreOk(c) && c.numConfiguration > 0
  {
    var b := c.configs[c.numConfiguration - 1];
    && d.setting == c.setting[num := alt]
    && forall k :: k in d.enabled <==>
         HasEndpoint(b, num, alt, k) || (k in c.enabled && !HasEndpoint(b, num, c.setting[num], k))
  }

  lemma SettingEps(c: Core, b: seq<byte>, num: byte, alt: byte)
    requires IsConfiguration(b) && |c.setting| == 256
    ensures AllNew(c.enabled - ToSet(IfaceEps(b, num, c.setting[num])), IfaceEps(b, num, alt))
       <==> !Clashes(c, b, num, alt)
  {
    hide WellFormed, Parse, HasEndpoint, IfaceEps, Selectable, AllNew;
    var free := c.enabled - ToSet(IfaceEps(b, num, c.setting[num]));
    AllocAllSpec(free, IfaceEps(b, num, alt));
    forall k: byte ensures k in ToSet(IfaceEps(b, num, alt)) <==> HasEndpoint(b, num, alt, k)
      ensures k in ToSet(IfaceEps(b, num, c.setting[num])) <==> HasEndpoint(b, num, c.setting[num], k)
    {
      IfaceEpsMeans(b, num, alt, k);
      IfaceEpsMeans(b, num, c.setting[num], k);
    }
  }

  lemma SettingEpsAfter(c: Core, d: Core, b: seq<byte>, num: byte, alt: byte)
    requires CoreOk(c) && c.numConfiguration > 0 && b == c.configs[c.numConfiguration - 1]
    requires Replaced(c, d, num, alt)
    ensures SettingIs(c, d, num, alt)
  {
    hide WellFormed, Parse, HasEndpoint, IfaceEps;
    forall k: byte ensures k in ToSet(IfaceEps(b, num, alt)) <==> HasEndpoint(b, num, alt, k)
      ensures k in ToSet(IfaceEps(b, num, c.setting[num])) <==> HasEndpoint(b, num, c.setting[num], k)
    {
      IfaceEpsMeans(b, num, alt, k);
      IfaceEpsMeans(b, num, c.setting[num], k);
    }
  }
}
