/** The configuration manager of the device core (udc.c): walks over the bytes of the configuration
    descriptor, and the endpoints it allocates and frees. */
module UdcConfiguration {
  import opened Packets
  import opened Descriptors
  import E = EndpointSteps
  import U = UddEndpoints

  datatype Option<T> = None | Some(value: T)

  /** A little-endian word. */
  function Word(lsb: int, msb: int): int { lsb + 0x100 * msb }

  lemma WordBytes(lsb: byte, msb: byte)
    ensures Word(lsb, msb) % 256 == lsb && Word(lsb, msb) / 256 == msb
  {}

  /** A configuration descriptor with its interface, class and endpoint descriptors. */
  predicate IsConfiguration(b: seq<byte>) {
    && WellFormed(b) && 9 <= |b| && 9 <= b[0] && b[1] == DT_CONFIGURATION
    && Word(b[2], b[3]) == |b|
  }

  function NumInterfaces(b: seq<byte>): byte
    requires IsConfiguration(b)
  {
    b[4]
  }

  /** The descriptor of interface num in alternate setting alt exists. */
  predicate Selectable(b: seq<byte>, num: byte, alt: byte)
    requires IsConfiguration(b)
  {
    FindIface(Parse(b), num, alt) < |Parse(b)|
  }

  /** The entry of an endpoint in the driver's table: its number and direction. */
  function EntryOf(ep: byte): byte { U.CtrlIndex(ep) }

  /** The other bits of an address do not matter, and entries 0 and 1 are those of the control endpoint. */
  lemma EntryTells(a: byte, b: byte)
    ensures EntryOf(a) == EntryOf(b) <==> a % 16 == b % 16 && (a >= U.DIR_IN <==> b >= U.DIR_IN)
    ensures EntryOf(a) in {0, 1} <==> a % 16 == 0
  {}

  /** The entry for bEndpointAddress. */
  function EpEntry(d: Descriptor): byte
    requires Fits(d) && d.descType == DT_ENDPOINT
  {
    EntryOf(d.body[0])
  }

  /** The entries for the endpoint descriptors at the given positions. */
  ghost function Entries(ds: seq<Descriptor>, ps: seq<nat>): (s: seq<byte>)
    requires AllFit(ds) && forall l :: 0 <= l < |ps| ==> ps[l] < |ds| && ds[ps[l]].descType == DT_ENDPOINT
    ensures |s| == |ps|
  {
    if ps == [] then [] else [EpEntry(ds[ps[0]])] + Entries(ds, ps[1..])
  }

  /** The entries of the endpoints from position k up to the next interface descriptor, in order. */
  ghost function EpsFrom(ds: seq<Descriptor>, k: nat): seq<byte>
    requires AllFit(ds) && k <= |ds|
  {
    Entries(ds, Ahead(ds, DT_ENDPOINT, k))
  }

  /** The endpoints of interface num in alternate setting alt, in the order of the descriptors. */
  ghost function IfaceEps(b: seq<byte>, num: byte, alt: byte): seq<byte>
    requires IsConfiguration(b)
  {
    var ds := Parse(b);
    var i := FindIface(ds, num, alt);
    if i < |ds| then EpsFrom(ds, i + 1) else []
  }

  ghost function ToSet(s: seq<byte>): set<byte> { set x | x in s }

  /** The endpoints of alternate setting 0 of interfaces 0..n-1. */
  ghost function DefaultEps(b: seq<byte>, n: nat): set<byte>
    requires IsConfiguration(b) && n < 256
  {
    if n == 0 then {} else DefaultEps(b, n - 1) + ToSet(IfaceEps(b, n - 1, 0))
  }

  ghost predicate NoDuplicates(s: seq<byte>) {
    forall i, j :: 0 <= i < j < |s| ==> s[i] != s[j]
  }

  // ----- the byte walks

  /** udc_get_eof_conf: wTotalLength. */
  method EofConf(b: seq<byte>) returns (eof: nat)
    requires IsConfiguration(b)
    ensures eof == |b|
  {
    eof := Word(b[2], b[3]);
  }

  /** udc_next_desc_in_iface, from the descriptor at position i: the walk finds the first descriptor
      of the type that follows in the same interface. */
  method NextDescInIface(b: seq<byte>, desc: nat, id: byte, ghost i: nat) returns (next: Option<nat>)
    requires IsConfiguration(b) && i < |Parse(b)| && desc == Offset(Parse(b), i)
    ensures var ds := Parse(b); var ps := Ahead(ds, id, i + 1);
      next == if |ps| == 0 then None else Some(Offset(ds, ps[0]))
  {
    hide Parse, WellFormed, Ahead, Offset;
    ghost var ds := Parse(b);
    var eof := EofConf(b);
    BytesAt(b, i);
    AtNext(b, desc, i);
    var at := desc + b[desc];
    ghost var k := i + 1;
    while eof > at
      invariant i < k && At(b, at, k) && Ahead(ds, id, i + 1) == Ahead(ds, id, k)
      decreases eof - at
    {
      AtNext(b, at, k);
      AheadStep(ds, id, k);
      if b[at + 1] == DT_INTERFACE {
        return None;
      }
      if b[at + 1] == id {
        return Some(at);
      }
      at := at + b[at];
      k := k + 1;
    }
    AheadStep(ds, id, k);
    next := None;
  }

  /** A walk over the endpoints of an interface is at the descriptor at position i, and these are the
      entries of the endpoints that follow. */
  ghost predicate Walk(b: seq<byte>, desc: nat, i: nat, eps: seq<byte>)
    requires IsConfiguration(b)
  {
    i < |Parse(b)| && desc == Offset(Parse(b), i) && eps == EpsFrom(Parse(b), i + 1)
  }

  lemma WalkNext(b: seq<byte>, desc: nat, i: nat, eps: seq<byte>) returns (j: nat)
    requires IsConfiguration(b) && Walk(b, desc, i, eps)
    ensures var ps := Ahead(Parse(b), DT_ENDPOINT, i + 1);
      if ps == [] then eps == []
      else
        && j == ps[0] && eps != []
        && var at := Offset(Parse(b), j);
        && at + 2 < |b| && b[at + 2] % 16 != 0 && EntryOf(b[at + 2]) == eps[0] && Walk(b, at, j, eps[1..])
  {
    hide Parse, WellFormed, Ahead, Offset, EntryOf;
    var ds := Parse(b);
    j := 0;
    if Ahead(ds, DT_ENDPOINT, i + 1) != [] {
      j := Ahead(ds, DT_ENDPOINT, i + 1)[0];
      AheadTail(ds, DT_ENDPOINT, i + 1);
      FieldsAt(b, j);
    }
  }

  /** The next endpoint descriptor in an interface, as the two loops over endpoints use it. */
  method NextEndpoint(b: seq<byte>, desc: nat, ghost i: nat, ghost eps: seq<byte>)
    returns (next: Option<nat>, ghost j: nat)
    requires IsConfiguration(b) && Walk(b, desc, i, eps)
    ensures next.None? <==> eps == []
    ensures next.Some? ==>
      && next.value + 2 < |b| && b[next.value + 2] % 16 != 0 && EntryOf(b[next.value + 2]) == eps[0]
      && Walk(b, next.value, j, eps[1..])
  {
    hide Parse, WellFormed, Ahead, Offset, EpsFrom, EntryOf;
    next := NextDescInIface(b, desc, DT_ENDPOINT, i);
    j := WalkNext(b, desc, i, eps);
  }

  /** The loop of udc_update_iface_desc: the pointer lands on the first matching interface
      descriptor, or at the end. */
  method FindIfaceDesc(b: seq<byte>, num: byte, alt: byte) returns (ptr: nat, found: bool)
    requires IsConfiguration(b)
    ensures found <==> Selectable(b, num, alt)
    ensures ptr == Offset(Parse(b), FindIface(Parse(b), num, alt))
  {
    hide Parse, WellFormed, Offset;
    ghost var ds := Parse(b);
    ptr := 0;
    ghost var k := 0;
    var eof := EofConf(b);
    AtStart(b);
    while eof > ptr
      invariant At(b, ptr, k)
      invariant forall j :: 0 <= j < k ==> !IsIface(ds[j], num, alt)
      decreases eof - ptr
    {
      AtNext(b, ptr, k);
      if b[ptr + 1] == DT_INTERFACE {
        if num == b[ptr + 2] && alt == b[ptr + 3] {
          FindIfaceUnique(ds, num, alt, k);
          return ptr, true;
        }
      }
      ptr := ptr + b[ptr];
      k := k + 1;
    }
    FindIfaceUnique(ds, num, alt, k);
    found := false;
  }

  // ----- who owns an endpoint

  /** For each interface that can be disabled again, the endpoints of its selected setting. */
  ghost function Owners(b: seq<byte>, setting: seq<byte>): (own: seq<set<byte>>)
    requires IsConfiguration(b) && |setting| == 256
    ensures |own| == 256
  {
    seq(256, i requires 0 <= i < 256 =>
      if i < NumInterfaces(b) && Selectable(b, i, 0) then ToSet(IfaceEps(b, i, setting[i])) else {})
  }

  ghost predicate HasOwner(own: seq<set<byte>>, e: byte) {
    exists i :: 0 <= i < |own| && e in own[i]
  }

  /** Every endpoint in use is owned. */
  ghost predicate AllOwned(own: seq<set<byte>>, enabled: set<byte>) {
    forall e :: e in enabled ==> HasOwner(own, e)
  }

  lemma OwnershipStarts(own: seq<set<byte>>, enabled: set<byte>, i: nat, eps: set<byte>, more: set<byte>)
    requires i < |own| && AllOwned(own[i := {}], enabled) && more <= enabled + eps
    ensures AllOwned(own[i := eps], more)
  {
    forall e | e in more ensures HasOwner(own[i := eps], e) {
      if e in eps {
        assert e in own[i := eps][i];
      } else {
        var j :| 0 <= j < |own| && e in own[i := {}][j];
        assert e in own[i := eps][j];
      }
    }
  }

  lemma OwnershipEnds(own: seq<set<byte>>, enabled: set<byte>, i: nat)
    requires i < |own| && AllOwned(own, enabled)
    ensures AllOwned(own[i := {}], enabled - own[i])
  {
    forall e | e in enabled - own[i] ensures HasOwner(own[i := {}], e) {
      var j :| 0 <= j < |own| && e in own[j];
      assert e in own[i := {}][j];
    }
  }

  /** Allocating endpoints one by one until one is already in use: what is in use then. */
  ghost function AllocAll(enabled: set<byte>, eps: seq<byte>): set<byte>
    decreases |eps|
  {
    if eps == [] || eps[0] in enabled then enabled else AllocAll(enabled + {eps[0]}, eps[1..])
  }

  /** Whether it reaches the end of the list. */
  ghost predicate AllNew(enabled: set<byte>, eps: seq<byte>)
    decreases |eps|
  {
    eps == [] || (eps[0] !in enabled && AllNew(enabled + {eps[0]}, eps[1..]))
  }

  /** It does exactly for new and different endpoints, and no other endpoint is ever allocated. */
  lemma {:induction false} AllocAllSpec(enabled: set<byte>, eps: seq<byte>)
    ensures enabled <= AllocAll(enabled, eps) <= enabled + ToSet(eps)
    ensures AllNew(enabled, eps) <==> NoDuplicates(eps) && ToSet(eps) !! enabled
    ensures AllNew(enabled, eps) ==> AllocAll(enabled, eps) == enabled + ToSet(eps)
    decreases |eps|
  {
    if eps != [] {
      ToSetStep(eps);
      DuplicatesSplit(eps);
      if eps[0] !in enabled {
        AllocAllSpec(enabled + {eps[0]}, eps[1..]);
      }
    }
  }

  lemma AllocStep(enabled: set<byte>, eps: seq<byte>)
    requires eps != []
    ensures eps[0] in enabled ==> AllocAll(enabled, eps) == enabled + {eps[0]} && !AllNew(enabled, eps)
    ensures eps[0] !in enabled ==>
      && AllocAll(enabled, eps) == AllocAll(enabled + {eps[0]}, eps[1..])
      && AllNew(enabled, eps) == AllNew(enabled + {eps[0]}, eps[1..])
  {}

  lemma AllocDone(enabled: set<byte>)
    ensures AllocAll(enabled, []) == enabled && AllNew(enabled, [])
  {}

  lemma FreeStep(enabled: set<byte>, eps: seq<byte>)
    requires eps != []
    ensures enabled - {eps[0]} - ToSet(eps[1..]) == enabled - ToSet(eps)
  {
    ToSetStep(eps);
  }

  lemma ToSetStep(eps: seq<byte>)
    requires eps != []
    ensures ToSet(eps) == {eps[0]} + ToSet(eps[1..])
  {
    assert eps == [eps[0]] + eps[1..];
  }

  lemma DuplicatesSplit(s: seq<byte>)
    requires |s| > 0
    ensures NoDuplicates(s) <==> s[0] !in ToSet(s[1..]) && NoDuplicates(s[1..])
  {
    var rest := s[1..];
    assert forall i :: 0 < i < |s| ==> s[i] == rest[i - 1];
    if NoDuplicates(rest) && s[0] !in ToSet(rest) {
      forall i, j | 0 <= i < j < |s| ensures s[i] != s[j] {
        assert s[j] == rest[j - 1];
        if i > 0 {
          assert s[i] == rest[i - 1];
        }
      }
    }
    if NoDuplicates(s) {
      forall i, j | 0 <= i < j < |rest| ensures rest[i] != rest[j] {
        assert rest[i] == s[i + 1] && rest[j] == s[j + 1];
      }
    }
  }

  /** The answers of the enable functions of the UDIs. */
  type Answers = s: seq<bool> | |s| == 256 witness seq(256, _ => true)

  /** The default settings of interfaces 0..n-1 can be enabled one after the other: each exists, none
      of its endpoints is taken, and its UDI agrees. */
  ghost predicate AllEnable(b: seq<byte>, udiOk: Answers, n: nat)
    requires IsConfiguration(b) && n < 256
  {
    n == 0 || (AllEnable(b, udiOk, n - 1) && CanEnable(b, udiOk, n - 1))
  }

  /** Interface i can be enabled after those before it. */
  ghost predicate CanEnable(b: seq<byte>, udiOk: Answers, i: byte)
    requires IsConfiguration(b)
  {
    && Selectable(b, i, 0) && udiOk[i]
    && AllNew(DefaultEps(b, i), IfaceEps(b, i, 0))
  }

  lemma {:induction false} AllEnableStep(b: seq<byte>, udiOk: Answers, i: nat, n: nat)
    requires IsConfiguration(b) && i < n < 256
    ensures AllEnable(b, udiOk, n) ==> AllEnable(b, udiOk, i + 1)
    decreases n - i
  {
    hide CanEnable;
    if i + 1 < n && AllEnable(b, udiOk, n) {
      AllEnableStep(b, udiOk, i, n - 1);
    }
  }

  /** The state of the loop of SET_CONFIGURATION when n interfaces are enabled. */
  ghost predicate EnabledSoFar(b: seq<byte>, udiOk: Answers, setting: seq<byte>, n: nat, enabled: set<byte>)
    requires IsConfiguration(b) && n <= NumInterfaces(b) && |setting| == 256
  {
    && AllEnable(b, udiOk, n) && enabled == DefaultEps(b, n)
    && forall k :: 0 <= k < n ==> setting[k] == 0
  }

  /** The endpoints of the default settings have owners. */
  lemma {:induction false} DefaultOwned(b: seq<byte>, udiOk: Answers, setting: seq<byte>, n: nat)
    requires IsConfiguration(b) && n <= NumInterfaces(b) && |setting| == 256
    requires AllEnable(b, udiOk, n) && forall k :: 0 <= k < n ==> setting[k] == 0
    ensures AllOwned(Owners(b, setting), DefaultEps(b, n))
  {
    hide Parse, WellFormed;
    if n > 0 {
      DefaultOwned(b, udiOk, setting, n - 1);
      DefaultOwnedStep(b, setting, n);
    }
  }

  lemma DefaultOwnedStep(b: seq<byte>, setting: seq<byte>, n: nat)
    requires IsConfiguration(b) && 0 < n <= NumInterfaces(b) && |setting| == 256
    requires Selectable(b, n - 1, 0) && setting[n - 1] == 0
    requires AllOwned(Owners(b, setting), DefaultEps(b, n - 1))
    ensures AllOwned(Owners(b, setting), DefaultEps(b, n))
  {
    hide Parse, WellFormed;
    StepOwned(b, setting, DefaultEps(b, n - 1), n - 1, 0, DefaultEps(b, n));
  }

  /** Endpoints of one more interface have an owner, too. */
  lemma StepOwned(b: seq<byte>, setting: seq<byte>, owned: set<byte>, i: nat, alt: byte, more: set<byte>)
    requires IsConfiguration(b) && i < NumInterfaces(b) && |setting| == 256 && Selectable(b, i, 0) && setting[i] == alt
    requires AllOwned(Owners(b, setting), owned) && more <= owned + ToSet(IfaceEps(b, i, alt))
    ensures AllOwned(Owners(b, setting), more)
  {
    hide Parse, WellFormed;
    forall e | e in more ensures HasOwner(Owners(b, setting), e) {
      if e in ToSet(IfaceEps(b, i, alt)) {
        assert e in Owners(b, setting)[i];
      }
    }
  }

  /** The same for an interface that gets another setting. */
  lemma StepOwnedAnew(b: seq<byte>, setting: seq<byte>, owned: set<byte>, i: byte, alt: byte, more: set<byte>)
    requires IsConfiguration(b) && i < NumInterfaces(b) && |setting| == 256 && Selectable(b, i, 0)
    requires AllOwned(Owners(b, setting)[i := {}], owned) && more <= owned + ToSet(IfaceEps(b, i, alt))
    ensures AllOwned(Owners(b, setting[i := alt]), more)
  {
    hide Parse, WellFormed;
    OwnersUpdate(b, setting, i, alt);
    OwnershipStarts(Owners(b, setting), owned, i, ToSet(IfaceEps(b, i, alt)), more);
  }

  lemma OwnersUpdate(b: seq<byte>, setting: seq<byte>, i: byte, alt: byte)
    requires IsConfiguration(b) && i < NumInterfaces(b) && |setting| == 256 && Selectable(b, i, 0)
    ensures Owners(b, setting[i := alt]) == Owners(b, setting)[i := ToSet(IfaceEps(b, i, alt))]
  {
    hide Parse, WellFormed;
  }

  /** The endpoints of the default settings of interfaces 0..n-1, in the order they are allocated. */
  ghost function DefaultList(b: seq<byte>, n: nat): seq<byte>
    requires IsConfiguration(b) && n < 256
  {
    if n == 0 then [] else DefaultList(b, n - 1) + IfaceEps(b, n - 1, 0)
  }

  lemma {:induction false} AllNewAppend(enabled: set<byte>, s: seq<byte>, t: seq<byte>, after: set<byte>)
    requires after == enabled + ToSet(s)
    ensures AllNew(enabled, s + t) <==> AllNew(enabled, s) && AllNew(after, t)
    decreases |s|
  {
    if s == [] {
      assert s + t == t && after == enabled;
    } else {
      ToSetStep(s);
      assert after == enabled + {s[0]} + ToSet(s[1..]);
      AllNewAppend(enabled + {s[0]}, s[1..], t, after);
      assert (s + t)[1..] == s[1..] + t;
    }
  }

  lemma {:induction false} DefaultListSet(b: seq<byte>, n: nat)
    requires IsConfiguration(b) && n < 256
    ensures ToSet(DefaultList(b, n)) == DefaultEps(b, n)
  {
    hide Parse, WellFormed;
    if n > 0 {
      DefaultListSet(b, n - 1);
      var s, t := DefaultList(b, n - 1), IfaceEps(b, n - 1, 0);
      assert ToSet(s + t) == ToSet(s) + ToSet(t);
    }
  }

  /** Interfaces 0..n-1 have a default setting and an agreeing UDI. */
  ghost predicate Willing(b: seq<byte>, udiOk: Answers, n: nat)
    requires IsConfiguration(b) && n < 256
  {
    forall i: nat :: i < n ==> Selectable(b, i, 0) && udiOk[i]
  }

  lemma WillingStep(b: seq<byte>, udiOk: Answers, n: nat)
    requires IsConfiguration(b) && 0 < n < 256
    ensures Willing(b, udiOk, n) <==> Willing(b, udiOk, n - 1) && Selectable(b, n - 1, 0) && udiOk[n - 1]
  {
    hide Parse, WellFormed;
    if Willing(b, udiOk, n - 1) && Selectable(b, n - 1, 0) && udiOk[n - 1] {
      forall i: nat | i < n ensures Selectable(b, i, 0) && udiOk[i] {
        assert i == n - 1 || i < n - 1;
      }
    }
  }

  lemma AllNewDefault(b: seq<byte>, n: nat)
    requires IsConfiguration(b) && 0 < n < 256
    ensures AllNew({}, DefaultList(b, n))
       <==> AllNew({}, DefaultList(b, n - 1)) && AllNew(DefaultEps(b, n - 1), IfaceEps(b, n - 1, 0))
  {
    hide Parse, WellFormed;
    DefaultListSet(b, n - 1);
    AllNewAppend({}, DefaultList(b, n - 1), IfaceEps(b, n - 1, 0), DefaultEps(b, n - 1));
  }

  lemma {:induction false} AllEnableNew(b: seq<byte>, udiOk: Answers, n: nat)
    requires IsConfiguration(b) && n < 256
    ensures AllEnable(b, udiOk, n) <==> Willing(b, udiOk, n) && AllNew({}, DefaultList(b, n))
  {
    hide Parse, WellFormed;
    if n > 0 {
      AllEnableNew(b, udiOk, n - 1);
      AllEnableNewStep(b, udiOk, n);
    } else {
      assert DefaultList(b, n) == [] && Willing(b, udiOk, n);
    }
  }

  lemma AllEnableNewStep(b: seq<byte>, udiOk: Answers, n: nat)
    requires IsConfiguration(b) && 0 < n < 256
    requires AllEnable(b, udiOk, n - 1) <==> Willing(b, udiOk, n - 1) && AllNew({}, DefaultList(b, n - 1))
    ensures AllEnable(b, udiOk, n) <==> Willing(b, udiOk, n) && AllNew({}, DefaultList(b, n))
  {
    hide Parse, WellFormed;
    WillingStep(b, udiOk, n);
    AllNewDefault(b, n);
    assert AllEnable(b, udiOk, n) <==> AllEnable(b, udiOk, n - 1) && CanEnable(b, udiOk, n - 1);
  }

  /** When SET_CONFIGURATION can succeed: every interface has a default setting and an agreeing UDI,
      and no endpoint occurs twice. */
  lemma AllEnableIff(b: seq<byte>, udiOk: Answers, n: nat)
    requires IsConfiguration(b) && n < 256
    ensures AllEnable(b, udiOk, n) <==> Willing(b, udiOk, n) && NoDuplicates(DefaultList(b, n))
  {
    hide Parse, WellFormed;
    AllEnableNew(b, udiOk, n);
    AllocAllSpec({}, DefaultList(b, n));
  }

  // ----- the endpoints in use, in the driver

  ghost function InUse(eps: map<byte, E.Endpoint>): set<byte> {
    set e | e in eps && E.IsEnabled(eps[e])
  }

  lemma StepEnables(e: E.Endpoint, ev: E.Event)
    requires E.WellSized(e) && E.Occurs(e, ev)
    ensures E.IsEnabled(E.Step(e, ev)) <==> ev.EvAlloc? || (E.IsEnabled(e) && !ev.EvFree?)
  {
    match ev
    case EvRun(shortPacket, buf, hasCallback) => E.CompletionKeeps(E.Registered(e, shortPacket, buf, hasCallback));
    case EvSent => E.CompletionKeeps(E.HwSent(e));
    case EvReceived(data) => E.CompletionKeeps(E.HwReceived(e, data));
    case _ =>
  }

  /** Of all that can happen to an endpoint of the table, only udd_ep_alloc and udd_ep_free change the
      set. */
  lemma DriverAgrees(eps: map<byte, E.Endpoint>, ep: byte, ev: E.Event)
    requires EntryOf(ep) in eps && E.WellSized(eps[EntryOf(ep)]) && E.Occurs(eps[EntryOf(ep)], ev)
    ensures var k := EntryOf(ep);
      InUse(eps[k := E.Step(eps[k], ev)]) ==
        if ev.EvAlloc? then InUse(eps) + {k} else if ev.EvFree? then InUse(eps) - {k} else InUse(eps)
  {
    StepEnables(eps[EntryOf(ep)], ev);
  }

  // ----- when the requests are accepted

  predicate AllConfigurations(configs: seq<seq<byte>>) {
    |configs| < 256 && forall k :: 0 <= k < |configs| ==> IsConfiguration(configs[k])
  }

  /** The state of the core between requests. */
  datatype Core = Core(configs: seq<seq<byte>>, address: nat, numConfiguration: byte, setting: seq<byte>,
                       enabled: set<byte>, deviceStatus: byte)

  predicate CoreOk(c: Core) {
    AllConfigurations(c.configs) && c.numConfiguration <= |c.configs| && |c.setting| == 256
  }

  /** The configuration in use. */
  function CurrentConf(c: Core): (b: seq<byte>)
    requires CoreOk(c) && c.numConfiguration > 0
    ensures IsConfiguration(b)
  {
    c.configs[c.numConfiguration - 1]
  }

  /** Exactly the endpoints of the default settings are in use. */
  ghost predicate Selected(c: Core)
    requires CoreOk(c)
  {
    c.enabled ==
      if c.numConfiguration == 0 then {} else DefaultEps(CurrentConf(c), NumInterfaces(CurrentConf(c)))
  }

  /** SET_CONFIGURATION is looked at: without data, with an address, and for a known configuration. */
  predicate SetConfChecked(c: Core, wValue: nat, wLength: nat) {
    wLength == 0 && c.address != 0 && wValue % 256 <= |c.configs|
  }

  ghost predicate SetConfAccepted(c: Core, wValue: nat, wLength: nat, udiOk: Answers)
    requires CoreOk(c)
  {
    && SetConfChecked(c, wValue, wLength)
    && (wValue % 256 == 0
        || AllEnable(c.configs[wValue % 256 - 1], udiOk, NumInterfaces(c.configs[wValue % 256 - 1])))
  }

  /** The enable function of the UDI of an interface is reached: its descriptor exists and none of its
      endpoints is taken. */
  ghost predicate Reaches(b: seq<byte>, enabled: set<byte>, num: byte, alt: byte)
    requires IsConfiguration(b)
  {
    Selectable(b, num, alt) && AllNew(enabled, IfaceEps(b, num, alt))
  }

  /** Some enable function is called, that of interface 0 first. */
  ghost predicate ReachesAny(b: seq<byte>)
    requires IsConfiguration(b)
  {
    NumInterfaces(b) > 0 && Reaches(b, {}, 0, 0)
  }

  ghost predicate SetConfReaches(c: Core, wValue: nat, wLength: nat)
    requires CoreOk(c)
  {
    SetConfChecked(c, wValue, wLength) && wValue % 256 > 0 && ReachesAny(c.configs[wValue % 256 - 1])
  }

  /** What SET_CONFIGURATION does: once checked it resets the core, whatever its answer, and with
      success exactly the endpoints of the default settings are in use. */
  ghost predicate SetConfDone(c: Core, d: Core, wValue: nat, wLength: nat, udiOk: Answers, ok: bool)
    requires CoreOk(c) && CoreOk(d)
  {
    && (ok <==> SetConfAccepted(c, wValue, wLength, udiOk))
    && d.configs == c.configs && d.address == c.address
    && (if SetConfChecked(c, wValue, wLength) then d.numConfiguration == wValue % 256 && d.deviceStatus == 0
        else d == c)
    && (ok ==> Selected(d))
  }

  /** What its last part does, the selection of configuration b. */
  ghost predicate SelectDone(b: seq<byte>, udiOk: Answers, setting: seq<byte>, enabled: set<byte>,
                             ok: bool, called: bool)
    requires IsConfiguration(b) && |setting| == 256
  {
    && AllOwned(Owners(b, setting), enabled)
    && (ok <==> AllEnable(b, udiOk, NumInterfaces(b))) && (called <==> ReachesAny(b))
    && (ok ==> enabled == DefaultEps(b, NumInterfaces(b)))
  }

  lemma SelectedDone(c: Core, d: Core, wValue: nat, wLength: nat, udiOk: Answers, ok: bool, called: bool)
    requires CoreOk(c) && CoreOk(d) && SetConfChecked(c, wValue, wLength) && wValue % 256 > 0
    requires d == c.(numConfiguration := wValue % 256, deviceStatus := 0, setting := d.setting, enabled := d.enabled)
    requires SelectDone(CurrentConf(d), udiOk, d.setting, d.enabled, ok, called)
    ensures SetConfDone(c, d, wValue, wLength, udiOk, ok) && (called <==> SetConfReaches(c, wValue, wLength))
  {
    hide Parse, WellFormed;
  }

  /** The state of its loop over the interfaces. */
  ghost predicate Selecting(b: seq<byte>, udiOk: Answers, setting: seq<byte>, enabled: set<byte>, i: nat, called: bool)
    requires IsConfiguration(b)
  {
    && i <= NumInterfaces(b) && |setting| == 256 && EnabledSoFar(b, udiOk, setting, i, enabled)
    && if i == 0 then !called && enabled == {} else called && ReachesAny(b)
  }

  lemma SelectStarts(b: seq<byte>, udiOk: Answers, setting: seq<byte>)
    requires IsConfiguration(b) && |setting| == 256
    ensures Selecting(b, udiOk, setting, {}, 0, false)
  {
    hide Parse, WellFormed;
  }

  lemma SelectEnds(b: seq<byte>, udiOk: Answers, setting: seq<byte>, enabled: set<byte>, called: bool)
    requires IsConfiguration(b) && |setting| == 256
    requires Selecting(b, udiOk, setting, enabled, NumInterfaces(b), called)
    ensures SelectDone(b, udiOk, setting, enabled, true, called)
  {
    hide Parse, WellFormed;
    DefaultOwned(b, udiOk, setting, NumInterfaces(b));
  }

  /** An interface whose endpoints were all new, or some of them, and whose UDI has been asked then. */
  lemma SelectNext(b: seq<byte>, udiOk: Answers, setting: seq<byte>, enabled: set<byte>, i: byte, before: bool,
                   more: set<byte>, ok: bool, called: bool)
    requires IsConfiguration(b) && i < NumInterfaces(b) && Selectable(b, i, 0)
    requires Selecting(b, udiOk, setting, enabled, i, before) && more == AllocAll(enabled, IfaceEps(b, i, 0))
    requires called <==> AllNew(enabled, IfaceEps(b, i, 0))
    requires ok <==> called && udiOk[i]
    ensures if ok then Selecting(b, udiOk, setting[i := 0], more, i + 1, true)
            else SelectDone(b, udiOk, setting[i := 0], more, false, called || before)
  {
    hide Parse, WellFormed;
    AllocAllSpec(enabled, IfaceEps(b, i, 0));
    AllEnableStep(b, udiOk, i, NumInterfaces(b));
    if !ok {
      DefaultOwned(b, udiOk, setting[i := 0], i);
      StepOwned(b, setting[i := 0], DefaultEps(b, i), i, 0, more);
    }
  }

  /** An interface without a default setting. */
  lemma SelectStops(b: seq<byte>, udiOk: Answers, setting: seq<byte>, enabled: set<byte>, i: byte, before: bool)
    requires IsConfiguration(b) && i < NumInterfaces(b) && !Selectable(b, i, 0)
    requires Selecting(b, udiOk, setting, enabled, i, before)
    ensures SelectDone(b, udiOk, setting, enabled, false, before)
  {
    hide Parse, WellFormed;
    AllEnableStep(b, udiOk, i, NumInterfaces(b));
    DefaultOwned(b, udiOk, setting, i);
  }

  /** SET_INTERFACE calls the enable function. */
  ghost predicate SetIfaceReaches(c: Core, wValue: nat, wIndex: nat, wLength: nat)
    requires CoreOk(c)
  {
    && wLength == 0 && c.numConfiguration > 0
    && var b, num, alt := CurrentConf(c), wIndex % 256, wValue % 256;
    && num < NumInterfaces(b) && Selectable(b, num, 0) && Selectable(b, num, c.setting[num])
    && Reaches(b, c.enabled - ToSet(IfaceEps(b, num, c.setting[num])), num, alt)
  }

  ghost predicate SetIfaceAccepted(c: Core, wValue: nat, wIndex: nat, wLength: nat, udiOk: bool)
    requires CoreOk(c)
  {
    udiOk && SetIfaceReaches(c, wValue, wIndex, wLength)
  }

  /** The endpoints of the new setting have replaced those of the old one. */
  ghost predicate Replaced(c: Core, d: Core, num: byte, alt: byte)
    requires CoreOk(c) && c.numConfiguration > 0
  {
    var b := CurrentConf(c);
    && d.setting == c.setting[num := alt]
    && d.enabled == c.enabled - ToSet(IfaceEps(b, num, c.setting[num])) + ToSet(IfaceEps(b, num, alt))
  }

  /** What SET_INTERFACE does. */
  ghost predicate SetIfaceDone(c: Core, d: Core, wValue: nat, wIndex: nat, wLength: nat, udiOk: bool, ok: bool)
    requires CoreOk(c)
  {
    && (ok <==> SetIfaceAccepted(c, wValue, wIndex, wLength, udiOk))
    && d == c.(setting := d.setting, enabled := d.enabled)
    && (ok ==> Replaced(c, d, wIndex % 256, wValue % 256))
  }

  /** After udc_iface_disable has failed. */
  lemma NotDisabled(c: Core, before: set<byte>, num: byte)
    requires CoreOk(c) && c.numConfiguration > 0 && AllOwned(Owners(CurrentConf(c), c.setting), c.enabled)
    requires before == c.enabled - Owners(CurrentConf(c), c.setting)[num]
    ensures AllOwned(Owners(CurrentConf(c), c.setting), before)
  {
    hide Parse, WellFormed, CurrentConf;
  }

  /** After udc_iface_disable and udc_iface_enable. */
  lemma IfaceReplaced(c: Core, d: Core, before: set<byte>, wValue: nat, wIndex: nat, udiOk: bool,
                      ok: bool, called: bool)
    requires CoreOk(c) && c.numConfiguration > 0 && d == c.(setting := d.setting, enabled := d.enabled)
    requires var b, num, alt := CurrentConf(c), wIndex % 256, wValue % 256;
      && AllOwned(Owners(b, c.setting), c.enabled) && before == c.enabled - Owners(b, c.setting)[num]
      && num < NumInterfaces(b) && Selectable(b, num, 0) && Selectable(b, num, c.setting[num])
      && (called <==> Reaches(b, before, num, alt)) && (ok <==> called && udiOk)
      && if Selectable(b, num, alt)
         then d.setting == c.setting[num := alt] && d.enabled == AllocAll(before, IfaceEps(b, num, alt))
         else d.setting == c.setting && d.enabled == before
    ensures SetIfaceDone(c, d, wValue, wIndex, 0, udiOk, ok) && (called <==> SetIfaceReaches(c, wValue, wIndex, 0))
    ensures AllOwned(Owners(CurrentConf(c), d.setting), d.enabled)
  {
    hide Parse, WellFormed, CurrentConf, AllNew, AllocAll, IfaceEps, AllOwned;
    var b, num, alt := CurrentConf(c), wIndex % 256, wValue % 256;
    AllocAllSpec(before, IfaceEps(b, num, alt));
    OwnershipEnds(Owners(b, c.setting), c.enabled, num);
    if Selectable(b, num, alt) {
      StepOwnedAnew(b, c.setting, before, num, alt, d.enabled);
    } else {
      NotDisabled(c, before, num);
    }
  }

  /** What the host or the bus can ask of the configuration manager. */
  datatype ConfigRequest =
    | SetAddress(address: nat)
    | SetConf(wValue: nat, wLength: nat, udiOk: Answers)
    | SetIface(wValue: nat, wIndex: nat, wLength: nat, ok: bool)
    | BusReset

  class DeviceCore {
    /** udc_config: the configuration descriptors. */
    const configs: seq<seq<byte>>
    /** The device address in the driver. */
    var address: nat
    var numConfiguration: nat
    /** udc_ptr_conf, as an index of configs. */
    var conf: nat
    /** udc_ptr_iface, as an offset in the current configuration. */
    var ptrIface: nat
    /** getsetting of the UDI of each interface: the setting the core has selected last. */
    var setting: seq<byte>
    /** The entries of the endpoints allocated in the driver. */
    var enabled: set<byte>
    /** udc_device_status; bit 1 is remote wakeup, and the device is bus powered. */
    var deviceStatus: byte

    ghost predicate Valid()
      reads this`numConfiguration, this`conf, this`setting
    {
      && AllConfigurations(configs)
      && numConfiguration <= |configs| && (numConfiguration > 0 ==> conf == numConfiguration - 1)
      && |setting| == 256
    }

    ghost function View(): (c: Core)
      requires Valid()
      reads this`numConfiguration, this`conf, this`setting, this`address, this`enabled, this`deviceStatus
      ensures CoreOk(c)
    {
      Core(configs, address, numConfiguration, setting, enabled, deviceStatus)
    }

    /** The configuration descriptor in use. */
    ghost function Bytes(): (b: seq<byte>)
      requires Valid() && numConfiguration > 0
      reads this`numConfiguration, this`conf, this`setting
      ensures IsConfiguration(b)
    {
      configs[conf]
    }

    /** No endpoint is allocated without a configuration, and otherwise each has an owner. */
    ghost predicate Owned()
      requires Valid()
      reads this`numConfiguration, this`conf, this`setting, this`enabled
    {
      if numConfiguration == 0 then enabled == {} else AllOwned(Owners(Bytes(), setting), enabled)
    }

    constructor (configs: seq<seq<byte>>)
      requires AllConfigurations(configs)
      ensures Valid() && Owned() && numConfiguration == 0 && this.configs == configs
    {
      this.configs := configs;
      address, numConfiguration, conf, ptrIface := 0, 0, 0, 0;
      setting := seq(256, _ => 0);
      enabled := {};
      deviceStatus := 0;
    }

    /** udc_update_iface_desc. */
    method UpdateIfaceDesc(num: byte, alt: byte) returns (found: bool)
      requires Valid()
      modifies this`ptrIface
      ensures found <==> numConfiguration > 0 && num < NumInterfaces(Bytes()) && Selectable(Bytes(), num, alt)
      ensures if numConfiguration > 0 && num < NumInterfaces(Bytes())
              then ptrIface == Offset(Parse(Bytes()), FindIface(Parse(Bytes()), num, alt))
              else ptrIface == old(ptrIface)
    {
      hide Parse, WellFormed;
      if numConfiguration == 0 {
        return false;
      }
      if num >= configs[conf][4] {
        return false;
      }
      ptrIface, found := FindIfaceDesc(configs[conf], num, alt);
    }

    /** udd_ep_alloc, as far as the device core sees it. */
    method EpAlloc(ep: byte) returns (ok: bool)
      requires ep % 16 != 0
      modifies this`enabled
      ensures ok <==> EntryOf(ep) !in old(enabled)
      ensures enabled == old(enabled) + {EntryOf(ep)}
    {
      ok := EntryOf(ep) !in enabled;
      enabled := enabled + {EntryOf(ep)};
    }

    /** udd_ep_free, likewise. */
    method EpFree(ep: byte)
      requires ep % 16 != 0
      modifies this`enabled
      ensures enabled == old(enabled) - {EntryOf(ep)}
    {
      enabled := enabled - {EntryOf(ep)};
    }

    /** The loop of udc_iface_disable over the endpoints behind the interface descriptor at iface. */
    method FreeEndpoints(b: seq<byte>, iface: nat, ghost i: nat)
      requires IsConfiguration(b) && i < |Parse(b)| && iface == Offset(Parse(b), i)
      modifies this`enabled
      ensures enabled == old(enabled) - ToSet(EpsFrom(Parse(b), i + 1))
    {
      hide Parse, WellFormed;
      ghost var cur: nat := i;
      ghost var eps := EpsFrom(Parse(b), i + 1);
      ghost var goal := enabled - ToSet(eps);
      var desc := iface;
      while true
        invariant Walk(b, desc, cur, eps) && enabled - ToSet(eps) == goal
        decreases |eps|
      {
        var next;
        next, cur := NextEndpoint(b, desc, cur, eps);
        if next == None {
          break;
        }
        desc := next.value;
        FreeStep(enabled, eps);
        EpFree(b[desc + 2]);
        eps := eps[1..];
      }
    }

    /** The loop of udc_iface_enable; it stops at an endpoint that is already allocated. */
    method AllocEndpoints(b: seq<byte>, iface: nat, ghost i: nat) returns (ok: bool)
      requires IsConfiguration(b) && i < |Parse(b)| && iface == Offset(Parse(b), i)
      modifies this`enabled
      ensures enabled == AllocAll(old(enabled), EpsFrom(Parse(b), i + 1))
      ensures ok == AllNew(old(enabled), EpsFrom(Parse(b), i + 1))
    {
      hide Parse, WellFormed;
      ghost var cur: nat := i;
      ghost var eps := EpsFrom(Parse(b), i + 1);
      ghost var goal, possible := AllocAll(enabled, eps), AllNew(enabled, eps);
      var desc := iface;
      while true
        invariant Walk(b, desc, cur, eps) && AllocAll(enabled, eps) == goal && AllNew(enabled, eps) == possible
        decreases |eps|
      {
        var next;
        next, cur := NextEndpoint(b, desc, cur, eps);
        if next == None {
          break;
        }
        desc := next.value;
        AllocStep(enabled, eps);
        var done := EpAlloc(b[desc + 2]);
        if !done {
          return false;
        }
        eps := eps[1..];
      }
      AllocDone(enabled);
      ok := true;
    }

    /** udc_iface_disable: the endpoints of the active setting are freed. */
    method IfaceDisable(num: byte) returns (ok: bool)
      requires Valid() && numConfiguration > 0
      modifies this`ptrIface, this`enabled
      ensures ok <==> num < NumInterfaces(Bytes()) && Selectable(Bytes(), num, 0)
                      && Selectable(Bytes(), num, setting[num])
      ensures enabled == old(enabled) - Owners(Bytes(), setting)[num]
    {
      hide Parse, WellFormed;
      var found := UpdateIfaceDesc(num, 0);
      if !found {
        return false;
      }
      found := UpdateIfaceDesc(num, setting[num]);
      if !found {
        return false;
      }
      FreeEndpoints(configs[conf], ptrIface, FindIface(Parse(Bytes()), num, setting[num]));
      ok := true;
    }

    /** udc_iface_enable; udiOk is the answer of the enable function of the interface's UDI, and called
        tells whether it has been called. */
    method IfaceEnable(num: byte, alt: byte, udiOk: bool) returns (ok: bool, called: bool)
      requires Valid() && numConfiguration > 0
      modifies this`ptrIface, this`enabled, this`setting
      ensures |setting| == 256
      ensures called <==> num < NumInterfaces(Bytes()) && Reaches(Bytes(), old(enabled), num, alt)
      ensures var b := Bytes(); var eps := IfaceEps(b, num, alt);
        if num < NumInterfaces(b) && Selectable(b, num, alt) then
          && setting == old(setting)[num := alt]
          && enabled == AllocAll(old(enabled), eps)
          && ok == (AllNew(old(enabled), eps) && udiOk)
        else !ok && enabled == old(enabled) && setting == old(setting)
    {
      hide Parse, WellFormed;
      var found := UpdateIfaceDesc(num, alt);
      if !found {
        return false, false;
      }
      setting := setting[num := alt];
      ok := AllocEndpoints(configs[conf], ptrIface, FindIface(Parse(configs[conf]), num, alt));
      if !ok {
        return false, false;
      }
      ok, called := udiOk, true;
    }

    /** udc_reset: none of the endpoints remains, however far an earlier enable has come. */
    method Reset()
      requires Valid() && Owned()
      modifies this`ptrIface, this`enabled, this`numConfiguration, this`deviceStatus
      ensures Valid() && Owned() && numConfiguration == 0 && enabled == {} && deviceStatus == 0
    {
      hide Parse, WellFormed;
      if numConfiguration > 0 {
        var i := 0;
        var n := configs[conf][4];
        ghost var own := Owners(Bytes(), setting);
        while i < n
          invariant 0 <= i <= n && Valid() && numConfiguration == old(numConfiguration)
          invariant |own| == 256
          invariant forall k :: 0 <= k < 256 ==> own[k] == if k < i then {} else Owners(Bytes(), setting)[k]
          invariant AllOwned(own, enabled)
        {
          OwnershipEnds(own, enabled, i);
          var done := IfaceDisable(i);
          own := own[i := {}];
          i := i + 1;
        }
      }
      numConfiguration := 0;
      deviceStatus := 0;
    }

    /** udc_req_std_dev_set_configuration; whatever the answer, every allocated endpoint can be freed
        again.  udiOk[i] is the answer of the enable function of interface i, and called tells whether
        any has been called. */
    method SetConfiguration(wValue: nat, wLength: nat, udiOk: Answers) returns (ok: bool, called: bool)
      requires Valid() && Owned()
      modifies this`ptrIface, this`enabled, this`numConfiguration, this`conf, this`setting, this`deviceStatus
      ensures Valid() && Owned()
      ensures SetConfDone(old(View()), View(), wValue, wLength, udiOk, ok)
      ensures called <==> SetConfReaches(old(View()), wValue, wLength)
    {
      hide Parse, WellFormed;
      if wLength != 0 {
        return false, false;
      }
      if address == 0 {
        return false, false;
      }
      if wValue % 256 > |configs| {
        return false, false;
      }
      ghost var c := View();
      Reset();
      if wValue % 256 == 0 {
        return true, false;
      }
      ok, called := Select(wValue % 256, udiOk);
      SelectedDone(c, View(), wValue, wLength, udiOk, ok, called);
    }

    /** Its last part: the configuration is selected and its interfaces are enabled. */
    method Select(value: byte, udiOk: Answers) returns (ok: bool, called: bool)
      requires Valid() && 0 < value <= |configs| && enabled == {}
      modifies this`ptrIface, this`enabled, this`numConfiguration, this`conf, this`setting
      ensures Valid() && Owned() && numConfiguration == value
      ensures SelectDone(Bytes(), udiOk, setting, enabled, ok, called)
    {
      hide Parse, WellFormed;
      numConfiguration := value;
      conf := numConfiguration - 1;
      ok, called := EnableAll(configs[conf], udiOk);
    }

    /** One round of the loop of udc_req_std_dev_set_configuration. */
    method EnableNext(b: seq<byte>, udiOk: Answers, i: byte, before: bool) returns (ok: bool, called: bool)
      requires Valid() && numConfiguration > 0 && b == configs[conf] && i < NumInterfaces(b)
      requires Selecting(b, udiOk, setting, enabled, i, before)
      modifies this`ptrIface, this`enabled, this`setting
      ensures |setting| == 256
      ensures if ok then Selecting(b, udiOk, setting, enabled, i + 1, called)
              else SelectDone(b, udiOk, setting, enabled, ok, called)
    {
      hide Parse, WellFormed;
      ghost var was, own := setting, enabled;
      ok, called := IfaceEnable(i, 0, udiOk[i]);
      if Selectable(b, i, 0) {
        SelectNext(b, udiOk, was, own, i, before, enabled, ok, called);
      } else {
        SelectStops(b, udiOk, was, own, i, before);
      }
      called := called || before;
    }

    /** The loop of udc_req_std_dev_set_configuration over the interfaces. */
    method EnableAll(b: seq<byte>, udiOk: Answers) returns (ok: bool, called: bool)
      requires Valid() && numConfiguration > 0 && b == configs[conf] && enabled == {}
      modifies this`ptrIface, this`enabled, this`setting
      ensures |setting| == 256 && SelectDone(b, udiOk, setting, enabled, ok, called)
    {
      hide Parse, WellFormed, AllEnable, AllOwned, DefaultEps, Owners, ReachesAny;
      var n := b[4];
      var i: nat := 0;
      called := false;
      SelectStarts(b, udiOk, setting);
      while i < n
        invariant Selecting(b, udiOk, setting, enabled, i, called)
      {
        ok, called := EnableNext(b, udiOk, i, called);
        if !ok {
          return;
        }
        i := i + 1;
      }
      SelectEnds(b, udiOk, setting, enabled, called);
      ok := true;
    }

    /** udc_req_std_iface_set_setting: the endpoints of the old setting make room for those of the new. */
    method SetInterface(wValue: nat, wIndex: nat, wLength: nat, udiOk: bool) returns (ok: bool, called: bool)
      requires Valid() && Owned()
      modifies this`ptrIface, this`enabled, this`setting
      ensures Valid() && Owned()
      ensures SetIfaceDone(old(View()), View(), wValue, wIndex, wLength, udiOk, ok)
      ensures called <==> SetIfaceReaches(old(View()), wValue, wIndex, wLength)
    {
      hide Parse, WellFormed, AllOwned, Owners, Selectable, AllNew, AllocAll, IfaceEps;
      if wLength != 0 {
        return false, false;
      }
      if numConfiguration == 0 {
        return false, false;
      }
      var num, alt := wIndex % 256, wValue % 256;
      ghost var c := View();
      ok := IfaceDisable(num);
      ghost var before := enabled;
      if !ok {
        NotDisabled(c, before, num);
        return false, false;
      }
      ok, called := IfaceEnable(num, alt, udiOk);
      IfaceReplaced(c, View(), before, wValue, wIndex, udiOk, ok, called);
    }

    /** A bus reset after any requests leaves no endpoint allocated. */
    method ResetAfter(requests: seq<ConfigRequest>)
      requires Valid() && Owned()
      modifies this
      ensures Valid() && numConfiguration == 0 && enabled == {}
    {
      hide Parse, WellFormed;
      for i := 0 to |requests|
        invariant Valid() && Owned()
      {
        var done, called;
        match requests[i]
        case SetAddress(a) => address := a;
        case SetConf(wValue, wLength, udiOk) => done, called := SetConfiguration(wValue, wLength, udiOk);
        case SetIface(wValue, wIndex, wLength, udiOk) => done, called := SetInterface(wValue, wIndex, wLength, udiOk);
        case BusReset => Reset(); address := 0;
      }
      Reset();
    }
  }
}
