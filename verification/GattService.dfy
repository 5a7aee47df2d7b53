/** The service declarations of system/service/gatt_server.cc: AddService flattens a service
    tree into a list of attribute elements, and ServiceAddedCallback rebuilds a tree from the
    list that comes back with a handle on every element. */
module GattService {
  import opened Options

  datatype Uuid = Uuid(bits: int)

  datatype Descriptor = Descriptor(handle: int, uuid: Uuid, permissions: int)

  datatype Characteristic =
    Characteristic(handle: int, uuid: Uuid, properties: int, permissions: int, descriptors: seq<Descriptor>)

  datatype Service =
    Service(handle: int, primary: bool, uuid: Uuid, characteristics: seq<Characteristic>, included: seq<Service>)

  datatype Kind = Primary | Secondary | IncludedService | CharacteristicValue | DescriptorValue

  datatype Element = Element(kind: Kind, uuid: Uuid, handle: int, properties: int, permissions: int)

  const NO_HANDLE := 0
  const NO_UUID := Uuid(0)

  // ----- The flat list of a tree, handles included -----

  function DescriptorElement(d: Descriptor): Element {
    Element(DescriptorValue, d.uuid, d.handle, 0, d.permissions)
  }

  function Block(c: Characteristic): seq<Element> {
    [Element(CharacteristicValue, c.uuid, c.handle, c.properties, c.permissions)] +
    seq(|c.descriptors|, i requires 0 <= i < |c.descriptors| => DescriptorElement(c.descriptors[i]))
  }

  function Listing(cs: seq<Characteristic>): seq<Element> {
    if cs == [] then [] else Listing(cs[..|cs| - 1]) + Block(cs[|cs| - 1])
  }

  function Includes(services: seq<Service>): seq<Element> {
    seq(|services|, i requires 0 <= i < |services| =>
      Element(IncludedService, NO_UUID, services[i].handle, 0, 0))
  }

  function Unset(es: seq<Element>): seq<Element> {
    seq(|es|, i requires 0 <= i < |es| => es[i].(handle := NO_HANDLE))
  }

  /** What AddService hands over: the tree in order, with no handle but those of the
      included services. */
  function Flattened(s: Service): seq<Element> {
    [Element(if s.primary then Primary else Secondary, s.uuid, NO_HANDLE, 0, 0)] +
    Unset(Listing(s.characteristics)) + Includes(s.included)
  }

  /** The list begins with the service, primary or not, goes on with the characteristics
      and descriptors without handles, and ends with the handles of the included services. */
  lemma FlattenedMeaning(s: Service)
    ensures var svc, n := Flattened(s), |Listing(s.characteristics)|;
      && |svc| == 1 + n + |s.included|
      && (svc[0].kind == Primary <==> s.primary) && (svc[0].kind == Secondary <==> !s.primary)
      && svc[0].uuid == s.uuid
      && (forall i :: 0 <= i < n ==> svc[1 + i] == Listing(s.characteristics)[i].(handle := NO_HANDLE))
      && (forall i :: 0 <= i < |s.included| ==>
            svc[1 + n + i].kind == IncludedService && svc[1 + n + i].handle == s.included[i].handle)
  {
  }

  method Flatten(s: Service) returns (svc: seq<Element>)
    ensures svc == Flattened(s)
  {
    svc := [Element(if s.primary then Primary else Secondary, s.uuid, NO_HANDLE, 0, 0)];
    ghost var head := svc;
    for i := 0 to |s.characteristics|
      invariant svc == head + Unset(Listing(s.characteristics[..i]))
    {
      UnsetListingStep(s.characteristics, i);
      svc := AppendCharacteristic(svc, s.characteristics[i]);
    }
    assert s.characteristics[..|s.characteristics|] == s.characteristics;
    ghost var body := svc;
    for i := 0 to |s.included|
      invariant svc == body + Includes(s.included)[..i]
    {
      svc := svc + [Element(IncludedService, NO_UUID, s.included[i].handle, 0, 0)];
    }
  }

  /** The body of the outer loop: the characteristic, then its descriptors. */
  method AppendCharacteristic(before: seq<Element>, c: Characteristic) returns (svc: seq<Element>)
    ensures svc == before + Unset(Block(c))
  {
    svc := before + [Element(CharacteristicValue, c.uuid, NO_HANDLE, c.properties, c.permissions)];
    for j := 0 to |c.descriptors|
      invariant svc == before + Unset(Block(c))[..j + 1]
    {
      svc := svc + [Element(DescriptorValue, c.descriptors[j].uuid, NO_HANDLE, 0, c.descriptors[j].permissions)];
    }
  }

  lemma UnsetListingStep(cs: seq<Characteristic>, i: nat)
    requires i < |cs|
    ensures Unset(Listing(cs[..i + 1])) == Unset(Listing(cs[..i])) + Unset(Block(cs[i]))
  {
    assert cs[..i + 1][..i] == cs[..i];
  }

  // ----- Rebuilding -----

  /** One element of the list; None stands for taking the last characteristic when there
      is none. */
  function AddElement(cs: seq<Characteristic>, e: Element): Option<seq<Characteristic>> {
    match e.kind
    case CharacteristicValue => Some(cs + [Characteristic(e.handle, e.uuid, e.properties, e.permissions, [])])
    case DescriptorValue =>
      if cs == [] then None else Some(cs[|cs| - 1 := WithDescriptor(cs[|cs| - 1], e)])
    case _ => Some(cs)
  }

  function WithDescriptor(c: Characteristic, e: Element): Characteristic {
    c.(descriptors := c.descriptors + [Descriptor(e.handle, e.uuid, e.permissions)])
  }

  function AddAll(es: seq<Element>): Option<seq<Characteristic>> {
    if es == [] then Some([])
    else match AddAll(es[..|es| - 1])
         case None => None
         case Some(cs) => AddElement(cs, es[|es| - 1])
  }

  function Rebuilt(svc: seq<Element>): Option<Service> {
    if svc == [] then None
    else match AddAll(svc[1..])
         case None => None
         case Some(cs) => Some(Service(svc[0].handle, true, svc[0].uuid, cs, []))
  }

  method Rebuild(svc: seq<Element>) returns (r: Option<Service>)
    ensures r == Rebuilt(svc)
  {
    if svc == [] {
      return None;
    }
    var cs: seq<Characteristic> := [];
    ghost var rest := svc[1..];
    for i := 1 to |svc|
      invariant AddAll(rest[..i - 1]) == Some(cs)
    {
      assert rest[..i][..i - 1] == rest[..i - 1];
      var next := AddElement(cs, svc[i]);
      if next.None? {
        StaysUndefined(rest, i);
        return None;
      }
      cs := next.value;
    }
    assert rest[..|rest|] == rest;
    return Some(Service(svc[0].handle, true, svc[0].uuid, cs, []));
  }

  lemma {:induction false} StaysUndefined(es: seq<Element>, n: nat)
    requires n <= |es| && AddAll(es[..n]) == None
    ensures AddAll(es) == None
  {
    if n == |es| {
      assert es[..n] == es;
    } else {
      assert es[..|es| - 1][..n] == es[..n];
      StaysUndefined(es[..|es| - 1], n);
    }
  }

  // ----- When the rebuild is defined -----

  predicate HasCharacteristic(es: seq<Element>) {
    exists i :: 0 <= i < |es| && es[i].kind == CharacteristicValue
  }

  /** Every descriptor has a characteristic somewhere before it. */
  predicate Ordered(es: seq<Element>) {
    forall i :: 0 <= i < |es| && es[i].kind == DescriptorValue ==> HasCharacteristic(es[..i])
  }

  lemma {:induction false} AddAllDefined(es: seq<Element>)
    ensures AddAll(es).Some? <==> Ordered(es)
    ensures AddAll(es).Some? ==> (AddAll(es).value != [] <==> HasCharacteristic(es))
  {
    if es != [] {
      var front, e := es[..|es| - 1], es[|es| - 1];
      AddAllDefined(front);
      assert forall i :: 0 <= i <= |front| ==> front[..i] == es[..i];
      assert HasCharacteristic(es) <==> HasCharacteristic(front) || e.kind == CharacteristicValue by {
        if HasCharacteristic(front) {
          var i :| 0 <= i < |front| && front[i].kind == CharacteristicValue;
          assert es[i].kind == CharacteristicValue;
        }
        if HasCharacteristic(es) {
          var i :| 0 <= i < |es| && es[i].kind == CharacteristicValue;
          assert i < |front| ==> front[i].kind == CharacteristicValue;
        }
      }
      assert Ordered(es) <==> Ordered(front) && (e.kind == DescriptorValue ==> HasCharacteristic(front));
    }
  }

  /** The callback stays inside its vectors exactly when the list is not empty and its
      descriptors are in order. */
  lemma RebuildDefinedExactly(svc: seq<Element>)
    ensures Rebuilt(svc).Some? <==> svc != [] && Ordered(svc[1..])
  {
    if svc != [] {
      AddAllDefined(svc[1..]);
    }
  }

  // ----- Rebuilding and listing are inverse -----

  /** The elements the rebuild uses, with the field it ignores cleared. */
  function Kept(es: seq<Element>): seq<Element> {
    if es == [] then []
    else
      var front, e := Kept(es[..|es| - 1]), es[|es| - 1];
      if e.kind == CharacteristicValue then front + [e]
      else if e.kind == DescriptorValue then front + [e.(properties := 0)]
      else front
  }

  lemma ListingLast(front: seq<Characteristic>, c: Characteristic)
    ensures Listing(front + [c]) == Listing(front) + Block(c)
  {
    assert (front + [c])[..|front|] == front;
  }

  /** No element is lost, moved to another characteristic, or reordered. */
  lemma {:induction false} ListingOfRebuild(es: seq<Element>)
    requires AddAll(es).Some?
    ensures Listing(AddAll(es).value) == Kept(es)
  {
    if es != [] {
      ListingOfRebuild(es[..|es| - 1]);
      var cs, e := AddAll(es[..|es| - 1]).value, es[|es| - 1];
      if e.kind == CharacteristicValue {
        ListingLast(cs, Characteristic(e.handle, e.uuid, e.properties, e.permissions, []));
      } else if e.kind == DescriptorValue {
        ListingWithDescriptor(cs, e);
      }
    }
  }

  lemma ListingWithDescriptor(cs: seq<Characteristic>, e: Element)
    requires cs != [] && e.kind == DescriptorValue
    ensures Listing(AddElement(cs, e).value) == Listing(cs) + [e.(properties := 0)]
  {
    var front, c := cs[..|cs| - 1], cs[|cs| - 1];
    assert cs[|cs| - 1 := WithDescriptor(c, e)] == front + [WithDescriptor(c, e)];
    ListingLast(front, WithDescriptor(c, e));
    assert Block(WithDescriptor(c, e)) == Block(c) + [e.(properties := 0)];
  }

  lemma AddAllLast(es: seq<Element>, e: Element)
    requires AddAll(es).Some?
    ensures AddAll(es + [e]) == AddElement(AddAll(es).value, e)
  {
    assert (es + [e])[..|es|] == es;
  }

  lemma DescriptorAppends(cs: seq<Characteristic>, c: Characteristic, d: Descriptor)
    ensures AddElement(cs + [c], DescriptorElement(d)) == Some(cs + [c.(descriptors := c.descriptors + [d])])
  {
    assert (cs + [c])[|cs| := WithDescriptor(c, DescriptorElement(d))]
        == cs + [c.(descriptors := c.descriptors + [d])];
  }

  /** The characteristic with its first `k` descriptors. */
  function Partial(c: Characteristic, k: nat): Characteristic
    requires k <= |c.descriptors|
  {
    c.(descriptors := c.descriptors[..k])
  }

  lemma PartialBlock(c: Characteristic, k: nat)
    requires k <= |c.descriptors|
    ensures k < |Block(c)| == |c.descriptors| + 1
    ensures k > 0 ==> Block(c)[..k + 1] == Block(c)[..k] + [DescriptorElement(c.descriptors[k - 1])]
    ensures k > 0 ==> c.descriptors[..k] == c.descriptors[..k - 1] + [c.descriptors[k - 1]]
  {
  }

  lemma {:induction false} BlockRebuilds(es: seq<Element>, cs: seq<Characteristic>, c: Characteristic, k: nat)
    requires AddAll(es) == Some(cs) && k <= |c.descriptors|
    ensures AddAll(es + Block(c)[..k + 1]) == Some(cs + [Partial(c, k)])
  {
    PartialBlock(c, k);
    if k == 0 {
      AddAllLast(es, Block(c)[0]);
      assert Block(c)[..1] == [Block(c)[0]];
    } else {
      var d := c.descriptors[k - 1];
      BlockRebuilds(es, cs, c, k - 1);
      AddAllLast(es + Block(c)[..k], DescriptorElement(d));
      DescriptorAppends(cs, Partial(c, k - 1), d);
      assert es + Block(c)[..k + 1] == es + Block(c)[..k] + [DescriptorElement(d)];
    }
  }

  lemma {:induction false} RebuildOfListing(cs: seq<Characteristic>)
    ensures AddAll(Listing(cs)) == Some(cs)
  {
    if cs != [] {
      var front, c := cs[..|cs| - 1], cs[|cs| - 1];
      RebuildOfListing(front);
      BlockRebuilds(Listing(front), front, c, |c.descriptors|);
      assert Block(c)[..|c.descriptors| + 1] == Block(c);
      assert Partial(c, |c.descriptors|) == c;
      assert front + [c] == cs;
    }
  }

  lemma {:induction false} IncludesIgnored(es: seq<Element>, tail: seq<Element>)
    requires forall i :: 0 <= i < |tail| ==> tail[i].kind == IncludedService
    ensures AddAll(es + tail) == AddAll(es)
  {
    if tail == [] {
      assert es + tail == es;
    } else {
      assert (es + tail)[..|es + tail| - 1] == es + tail[..|tail| - 1];
      IncludesIgnored(es, tail[..|tail| - 1]);
    }
  }

  // ----- The handles the stack assigned -----

  function Bare(cs: seq<Characteristic>): seq<Characteristic> {
    seq(|cs|, i requires 0 <= i < |cs| => BareCharacteristic(cs[i]))
  }

  function BareCharacteristic(c: Characteristic): Characteristic {
    c.(handle := NO_HANDLE, descriptors := seq(|c.descriptors|, i requires 0 <= i < |c.descriptors| =>
      c.descriptors[i].(handle := NO_HANDLE)))
  }

  function BareService(s: Service): Service {
    s.(handle := NO_HANDLE, characteristics := Bare(s.characteristics))
  }

  lemma {:induction false} RebuildIgnoresHandles(es: seq<Element>)
    ensures AddAll(Unset(es)) ==
            match AddAll(es) { case None => None case Some(cs) => Some(Bare(cs)) }
  {
    if es != [] {
      var front, e := es[..|es| - 1], es[|es| - 1];
      RebuildIgnoresHandles(front);
      assert Unset(es)[..|es| - 1] == Unset(front);
      if AddAll(front).Some? {
        AddIgnoresHandle(AddAll(front).value, e);
      }
    } else {
      assert Bare([]) == [];
    }
  }

  lemma AddIgnoresHandle(cs: seq<Characteristic>, e: Element)
    ensures AddElement(Bare(cs), e.(handle := NO_HANDLE)) ==
            match AddElement(cs, e) { case None => None case Some(next) => Some(Bare(next)) }
  {
    if e.kind == CharacteristicValue {
      var c := Characteristic(e.handle, e.uuid, e.properties, e.permissions, []);
      assert BareCharacteristic(c) == c.(handle := NO_HANDLE);
      assert Bare(cs + [c]) == Bare(cs) + [BareCharacteristic(c)];
    } else if e.kind == DescriptorValue && cs != [] {
      var c := cs[|cs| - 1];
      assert BareCharacteristic(WithDescriptor(c, e)) ==
             WithDescriptor(BareCharacteristic(c), e.(handle := NO_HANDLE));
      assert Bare(cs[|cs| - 1 := WithDescriptor(c, e)]) ==
             Bare(cs)[|cs| - 1 := BareCharacteristic(WithDescriptor(c, e))];
    }
  }

  lemma {:induction false} UnsetListing(cs: seq<Characteristic>)
    ensures Unset(Listing(cs)) == Listing(Bare(cs))
  {
    if cs != [] {
      var front, c := cs[..|cs| - 1], cs[|cs| - 1];
      UnsetListing(front);
      assert Bare(cs)[..|cs| - 1] == Bare(front);
      assert Unset(Listing(cs)) == Unset(Listing(front)) + Unset(Block(c));
      assert Unset(Block(c)) == Block(BareCharacteristic(c));
    }
  }

  /** The list AddService sends comes back with handles filled in.  Whatever handles the
      stack chose, the service passed to the callback has the characteristics and
      descriptors that were added, in order; it is the service that was added, up to
      handles, exactly when that one was primary and included no other service. */
  lemma AddedServiceRoundTrip(s: Service, svc: seq<Element>)
    requires Unset(svc) == Unset(Flattened(s))
    ensures Rebuilt(svc).Some?
    ensures var r := Rebuilt(svc).value;
            && r.uuid == s.uuid && r.handle == svc[0].handle
            && Bare(r.characteristics) == Bare(s.characteristics)
            && Listing(r.characteristics) == svc[1..1 + |Listing(s.characteristics)|]
            && (BareService(r) == BareService(s) <==> s.primary && s.included == [])
  {
    var listed := Listing(s.characteristics);
    var n := |listed|;
    var sent := Flattened(s);
    assert |svc| == |Unset(svc)| == |Unset(sent)| == |sent| == 1 + n + |s.included|;
    var body, tail := svc[1..1 + n], svc[1 + n..];
    assert svc[1..] == body + tail;
    assert forall i :: 0 <= i < |svc| ==> svc[i].(handle := NO_HANDLE) == sent[i].(handle := NO_HANDLE) by {
      forall i | 0 <= i < |svc| ensures svc[i].(handle := NO_HANDLE) == sent[i].(handle := NO_HANDLE) {
        assert Unset(svc)[i] == Unset(sent)[i];
      }
    }
    assert svc[0].uuid == s.uuid;
    assert Unset(body) == Unset(listed);
    BodyRoundTrip(s.characteristics, body);
    IncludesIgnored(body, tail);
  }

  lemma BodyRoundTrip(cs: seq<Characteristic>, body: seq<Element>)
    requires Unset(body) == Unset(Listing(cs))
    ensures AddAll(body).Some? && Bare(AddAll(body).value) == Bare(cs)
    ensures Listing(AddAll(body).value) == body
  {
    UnsetListing(cs);
    RebuildOfListing(Bare(cs));
    RebuildIgnoresHandles(body);
    ListingOfRebuild(body);
    forall i | 0 <= i < |body|
      ensures body[i].kind == CharacteristicValue || (body[i].kind == DescriptorValue && body[i].properties == 0)
    {
      assert Unset(body)[i] == Unset(Listing(cs))[i];
      ListingKinds(cs, i);
    }
    KeptAll(body);
  }

  lemma {:induction false} ListingKinds(cs: seq<Characteristic>, i: nat)
    requires i < |Listing(cs)|
    ensures var e := Listing(cs)[i];
            e.kind == CharacteristicValue || (e.kind == DescriptorValue && e.properties == 0)
  {
    if i < |Listing(cs[..|cs| - 1])| {
      ListingKinds(cs[..|cs| - 1], i);
    }
  }

  lemma {:induction false} KeptAll(es: seq<Element>)
    requires forall i :: 0 <= i < |es| ==>
               es[i].kind == CharacteristicValue || (es[i].kind == DescriptorValue && es[i].properties == 0)
    ensures Kept(es) == es
  {
    if es != [] {
      KeptAll(es[..|es| - 1]);
      assert es == es[..|es| - 1] + [es[|es| - 1]];
    }
  }
}
