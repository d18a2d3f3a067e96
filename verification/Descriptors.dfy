/** USB configuration descriptors as bytes and as a list (udc.c, usb_protocol.h; section 9.5 of
    USB 2.0).  The list is the reference the byte walks of the device core are compared with. */
module Descriptors {
  import opened Packets

  const DT_CONFIGURATION: byte := 2
  const DT_INTERFACE: byte := 4
  const DT_ENDPOINT: byte := 5

  /** A descriptor: its type, and the bytes behind bLength and bDescriptorType. */
  datatype Descriptor = Descriptor(descType: byte, body: seq<byte>)

  function Length(d: Descriptor): nat { |d.body| + 2 }

  /** bLength fits a byte, interface and endpoint descriptors have all their fields, and no endpoint
      descriptor is for the control endpoint (section 9.6.6 of USB 2.0). */
  predicate Fits(d: Descriptor) {
    && Length(d) < 256
    && (d.descType == DT_INTERFACE ==> Length(d) >= 9)
    && (d.descType == DT_ENDPOINT ==> Length(d) >= 7 && d.body[0] % 16 != 0)
  }

  function Encode(d: Descriptor): (b: seq<byte>)
    requires Fits(d)
    ensures |b| == Length(d)
  {
    [Length(d), d.descType] + d.body
  }

  predicate AllFit(ds: seq<Descriptor>) {
    forall i :: 0 <= i < |ds| ==> Fits(ds[i])
  }

  function EncodeAll(ds: seq<Descriptor>): seq<byte>
    requires AllFit(ds)
  {
    if ds == [] then [] else Encode(ds[0]) + EncodeAll(ds[1..])
  }

  /** Each bLength leads to the next descriptor, and the last one to the end. */
  predicate WellFormed(b: seq<byte>)
    decreases |b|
  {
    |b| == 0 ||
    (&& 2 <= |b| && 2 <= b[0] <= |b|
     && (b[1] == DT_INTERFACE ==> b[0] >= 9)
     && (b[1] == DT_ENDPOINT ==> b[0] >= 7 && b[2] % 16 != 0)
     && WellFormed(b[b[0]..]))
  }

  function Head(b: seq<byte>): (d: Descriptor)
    requires |b| > 0 && WellFormed(b)
    ensures Fits(d) && Length(d) == b[0] && Encode(d) == b[..b[0]]
  {
    Descriptor(b[1], b[2..b[0]])
  }

  function Parse(b: seq<byte>): (ds: seq<Descriptor>)
    requires WellFormed(b)
    ensures AllFit(ds)
    decreases |b|
  {
    if |b| == 0 then [] else [Head(b)] + Parse(b[b[0]..])
  }

  /** Reading the bytes of a list gives the list. */
  lemma {:induction false} ParseEncode(ds: seq<Descriptor>)
    requires AllFit(ds)
    ensures WellFormed(EncodeAll(ds)) && Parse(EncodeAll(ds)) == ds
    decreases |ds|
  {
    if ds != [] {
      ParseEncode(ds[1..]);
      var b := EncodeAll(ds);
      assert b[0] == Length(ds[0]) && b[1] == ds[0].descType && Fits(ds[0]);
      assert b[b[0]..] == EncodeAll(ds[1..]);
      assert WellFormed(b);
      assert Head(b) == ds[0] by {
        assert b[2..b[0]] == ds[0].body;
      }
    }
  }

  /** Writing the list of some bytes gives the bytes. */
  lemma {:induction false} EncodeParse(b: seq<byte>)
    requires WellFormed(b)
    ensures EncodeAll(Parse(b)) == b
    decreases |b|
  {
    if |b| > 0 {
      var rest := b[b[0]..];
      EncodeParse(rest);
      assert Parse(b) == [Head(b)] + Parse(rest);
      EncodeCons(Head(b), Parse(rest));
      assert b[..b[0]] + rest == b;
    }
  }

  lemma EncodeCons(d: Descriptor, ds: seq<Descriptor>)
    requires Fits(d) && AllFit(ds)
    ensures AllFit([d] + ds) && EncodeAll([d] + ds) == Encode(d) + EncodeAll(ds)
  {
    assert ([d] + ds)[1..] == ds;
  }

  // ----- positions

  /** The byte offset of descriptor i; that of the end for i == |ds|. */
  function Offset(ds: seq<Descriptor>, i: nat): nat
    requires i <= |ds|
  {
    if i == 0 then 0 else Offset(ds, i - 1) + Length(ds[i - 1])
  }

  lemma {:induction false} OffsetTail(ds: seq<Descriptor>, i: nat)
    requires 0 < i <= |ds|
    ensures Offset(ds, i) == Length(ds[0]) + Offset(ds[1..], i - 1)
    decreases i
  {
    if i > 1 {
      OffsetTail(ds, i - 1);
    }
  }

  /** What the byte walk finds at the offset of a descriptor: its bytes, and the way to the next. */
  lemma {:induction false} BytesAt(b: seq<byte>, i: nat)
    requires WellFormed(b) && i <= |Parse(b)|
    ensures var ds := Parse(b); var at := Offset(ds, i);
      && at <= |b|
      && (at == |b| <==> i == |ds|)
      && (i < |ds| ==> at + Length(ds[i]) <= |b| && b[at..at + Length(ds[i])] == Encode(ds[i]))
    decreases i
  {
    hide Encode, EncodeAll;
    var ds := Parse(b);
    if i > 0 {
      var rest := b[b[0]..];
      BytesAt(rest, i - 1);
      assert ds[1..] == Parse(rest);
      OffsetTail(ds, i);
      if i < |ds| {
        SliceTail(b, b[0], Offset(ds, i), Length(ds[i]));
      }
    }
  }

  lemma SliceTail(b: seq<byte>, k: nat, at: nat, n: nat)
    requires k <= at && at + n <= |b|
    ensures b[k..][at - k..at - k + n] == b[at..at + n]
  {}

  /** The fields the walks read at the offset of a descriptor. */
  lemma FieldsAt(b: seq<byte>, i: nat)
    requires WellFormed(b) && i < |Parse(b)|
    ensures var d := Parse(b)[i]; var at := Offset(Parse(b), i);
      && at + Length(d) <= |b| && b[at] == Length(d) && b[at + 1] == d.descType
      && Offset(Parse(b), i + 1) == at + b[at] <= |b| && (at + b[at] == |b| <==> i + 1 == |Parse(b)|)
      && (2 <= |d.body| ==> b[at + 2] == d.body[0] && b[at + 3] == d.body[1])
  {
    hide Parse, WellFormed, Encode;
    BytesAt(b, i);
    BytesAt(b, i + 1);
    var d := Parse(b)[i];
    SliceIndex(b, Offset(Parse(b), i), Encode(d));
    EncodeFields(d);
  }

  lemma EncodeFields(d: Descriptor)
    requires Fits(d)
    ensures var e := Encode(d);
      && e[0] == Length(d) && e[1] == d.descType
      && (2 <= |d.body| ==> e[2] == d.body[0] && e[3] == d.body[1])
  {}

  /** A walk has come to descriptor k, or to the end. */
  ghost predicate At(b: seq<byte>, at: nat, k: nat)
    requires WellFormed(b)
  {
    k <= |Parse(b)| && at == Offset(Parse(b), k) <= |b| && (at == |b| <==> k == |Parse(b)|)
  }

  lemma AtStart(b: seq<byte>)
    requires WellFormed(b)
    ensures At(b, 0, 0)
  {
    BytesAt(b, 0);
  }

  /** What it reads there, and where it goes from there. */
  lemma AtNext(b: seq<byte>, at: nat, k: nat)
    requires WellFormed(b) && At(b, at, k) && at < |b|
    ensures k < |Parse(b)| && at + 1 < |b|
    ensures var d := Parse(b)[k];
      && b[at] == Length(d) && b[at + 1] == d.descType && At(b, at + b[at], k + 1)
      && (d.descType == DT_INTERFACE ==> at + 3 < |b| && b[at + 2] == d.body[0] && b[at + 3] == d.body[1])
  {
    hide Parse, WellFormed;
    FieldsAt(b, k);
  }

  lemma SliceIndex(b: seq<byte>, at: nat, e: seq<byte>)
    requires at + |e| <= |b| && b[at..at + |e|] == e && 2 <= |e|
    ensures b[at] == e[0] && b[at + 1] == e[1]
    ensures 4 <= |e| ==> b[at + 2] == e[2] && b[at + 3] == e[3]
  {
    var s := b[at..at + |e|];
    assert s[0] == b[at] && s[1] == b[at + 1];
    if 4 <= |e| {
      assert s[2] == b[at + 2] && s[3] == b[at + 3];
    }
  }

  /** Offsets tell descriptors apart. */
  lemma {:induction false} OffsetGrows(ds: seq<Descriptor>, i: nat, j: nat)
    requires i < j <= |ds|
    ensures Offset(ds, i) + Length(ds[i]) <= Offset(ds, j)
    decreases j
  {
    if i < j - 1 {
      OffsetGrows(ds, i, j - 1);
    }
  }

  // ----- the searches, on the list

  /** The interface descriptor of an interface and alternate setting. */
  predicate IsIface(d: Descriptor, num: byte, alt: byte)
    requires Fits(d)
  {
    d.descType == DT_INTERFACE && d.body[0] == num && d.body[1] == alt
  }

  /** The first interface descriptor that matches, or |ds|. */
  function FindIface(ds: seq<Descriptor>, num: byte, alt: byte): (i: nat)
    requires AllFit(ds)
    ensures i <= |ds|
  {
    FindIfaceFrom(ds, num, alt, 0)
  }

  function FindIfaceFrom(ds: seq<Descriptor>, num: byte, alt: byte, from: nat): (i: nat)
    requires AllFit(ds) && from <= |ds|
    ensures from <= i <= |ds|
    decreases |ds| - from
  {
    if from == |ds| || IsIface(ds[from], num, alt) then from else FindIfaceFrom(ds, num, alt, from + 1)
  }

  /** It matches, no earlier one does, and no other position has both properties. */
  lemma {:induction false} FindIfaceFromSpec(ds: seq<Descriptor>, num: byte, alt: byte, from: nat)
    requires AllFit(ds) && from <= |ds|
    ensures var i := FindIfaceFrom(ds, num, alt, from);
      && (i < |ds| ==> IsIface(ds[i], num, alt))
      && forall j :: from <= j < i ==> !IsIface(ds[j], num, alt)
    decreases |ds| - from
  {
    if from < |ds| && !IsIface(ds[from], num, alt) {
      FindIfaceFromSpec(ds, num, alt, from + 1);
    }
  }

  lemma FindIfaceUnique(ds: seq<Descriptor>, num: byte, alt: byte, i: nat)
    requires AllFit(ds) && i <= |ds|
    ensures FindIface(ds, num, alt) == i
       <==> (i < |ds| ==> IsIface(ds[i], num, alt)) && forall j :: 0 <= j < i ==> !IsIface(ds[j], num, alt)
  {
    FindIfaceFromSpec(ds, num, alt, 0);
  }

  /** The end of what belongs to an interface descriptor: the next interface descriptor, or |ds|. */
  function IfaceEnd(ds: seq<Descriptor>, from: nat): (i: nat)
    requires from <= |ds|
    ensures from <= i <= |ds|
    decreases |ds| - from
  {
    if from == |ds| || ds[from].descType == DT_INTERFACE then from else IfaceEnd(ds, from + 1)
  }

  /** The positions of the descriptors of a type in [from, end), in order. */
  function Positions(ds: seq<Descriptor>, id: byte, from: nat, end: nat): (ps: seq<nat>)
    requires from <= end <= |ds|
    ensures forall k :: 0 <= k < |ps| ==> from <= ps[k] < end && ds[ps[k]].descType == id
    decreases end - from
  {
    if from == end then []
    else if ds[from].descType == id then [from] + Positions(ds, id, from + 1, end)
    else Positions(ds, id, from + 1, end)
  }

  /** None is missing, and they are in order. */
  lemma PositionsSpec(ds: seq<Descriptor>, id: byte, from: nat, end: nat)
    requires from <= end <= |ds|
    ensures forall j :: from <= j < end && ds[j].descType == id ==> j in Positions(ds, id, from, end)
    ensures Increasing(Positions(ds, id, from, end))
  {
    forall j: nat | from <= j < end && ds[j].descType == id ensures j in Positions(ds, id, from, end) {
      PositionFound(ds, id, from, end, j);
    }
    PositionsIncrease(ds, id, from, end);
  }

  lemma {:induction false} PositionFound(ds: seq<Descriptor>, id: byte, from: nat, end: nat, j: nat)
    requires from <= j < end <= |ds| && ds[j].descType == id
    ensures j in Positions(ds, id, from, end)
    decreases end - from
  {
    if from < j {
      PositionFound(ds, id, from + 1, end, j);
    }
  }

  lemma {:induction false} PositionsIncrease(ds: seq<Descriptor>, id: byte, from: nat, end: nat)
    requires from <= end <= |ds|
    ensures Increasing(Positions(ds, id, from, end))
    decreases end - from
  {
    if from < end {
      PositionsIncrease(ds, id, from + 1, end);
      if ds[from].descType == id {
        IncreasingCons(from, Positions(ds, id, from + 1, end));
      }
    }
  }

  predicate Increasing(ps: seq<nat>) {
    forall k, l :: 0 <= k < l < |ps| ==> ps[k] < ps[l]
  }

  lemma IncreasingCons(p: nat, ps: seq<nat>)
    requires Increasing(ps) && forall k :: 0 <= k < |ps| ==> p < ps[k]
    ensures Increasing([p] + ps)
  {
    var all := [p] + ps;
    forall k, l | 0 <= k < l < |all| ensures all[k] < all[l] {
      assert all[l] == ps[l - 1];
    }
  }

  /** The descriptors of a type from position k up to the next interface descriptor. */
  function Ahead(ds: seq<Descriptor>, id: byte, k: nat): (ps: seq<nat>)
    requires k <= |ds|
    ensures forall l :: 0 <= l < |ps| ==> k <= ps[l] < |ds| && ds[ps[l]].descType == id
  {
    Positions(ds, id, k, IfaceEnd(ds, k))
  }

  /** Exactly the descriptors of the type with no interface descriptor before them, in order. */
  lemma AheadSpec(ds: seq<Descriptor>, id: byte, k: nat)
    requires k <= |ds| && id != DT_INTERFACE
    ensures var ps := Ahead(ds, id, k);
      && (forall j: nat :: j in ps <==> k <= j < |ds| && ds[j].descType == id && NoIface(ds, k, j))
      && Increasing(ps)
  {
    var end := IfaceEnd(ds, k);
    IfaceEndSpec(ds, k);
    PositionsSpec(ds, id, k, end);
    forall j: nat | k <= j < |ds| && ds[j].descType == id && NoIface(ds, k, j) ensures j in Ahead(ds, id, k) {
      assert j < end;
    }
    forall j: nat | j in Ahead(ds, id, k)
      ensures k <= j < |ds| && ds[j].descType == id && NoIface(ds, k, j)
    {
      assert j < end;
    }
  }

  /** There is no interface descriptor in [from, end). */
  predicate NoIface(ds: seq<Descriptor>, from: nat, end: nat)
    requires end <= |ds|
  {
    forall l :: from <= l < end ==> ds[l].descType != DT_INTERFACE
  }

  lemma {:induction false} IfaceEndSpec(ds: seq<Descriptor>, from: nat)
    requires from <= |ds|
    ensures var end := IfaceEnd(ds, from);
      NoIface(ds, from, end) && (end < |ds| ==> ds[end].descType == DT_INTERFACE)
    decreases |ds| - from
  {
    if from < |ds| && ds[from].descType != DT_INTERFACE {
      IfaceEndSpec(ds, from + 1);
    }
  }

  /** One step of a walk. */
  lemma AheadStep(ds: seq<Descriptor>, id: byte, k: nat)
    requires k <= |ds|
    ensures Ahead(ds, id, k) ==
              if k == |ds| || ds[k].descType == DT_INTERFACE then []
              else if ds[k].descType == id then [k] + Ahead(ds, id, k + 1)
              else Ahead(ds, id, k + 1)
  {}

  /** Going on from the first descriptor found leaves the others. */
  lemma {:induction false} AheadTail(ds: seq<Descriptor>, id: byte, k: nat)
    requires k <= |ds| && |Ahead(ds, id, k)| > 0
    ensures var p := Ahead(ds, id, k)[0]; Ahead(ds, id, p + 1) == Ahead(ds, id, k)[1..]
    decreases |ds| - k
  {
    AheadStep(ds, id, k);
    if ds[k].descType != id {
      AheadTail(ds, id, k + 1);
    } else {
      var rest := Ahead(ds, id, k + 1);
      assert ([k] + rest)[0] == k && ([k] + rest)[1..] == rest;
    }
  }
}
