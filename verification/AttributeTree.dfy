/** The devices of a platform as attribute handling sees them: root bridges, bridges below them, and leaves. */
module AttributeTree {

  import opened PciTopology
  import opened AttributeBits
  import opened BitSets

  /**
    A device or root bridge, as far as attributes ask; a root bridge has no parent. Attributes are determined after the
    last rejection, so that this tree stays as it is, unlike the one of DeviceTree.
  */
  datatype Device = Device(parent: Option<nat>, isBridge: bool, isVga: bool, isIde: bool, isLpc: bool, segment: nat)

  predicate IsRoot(devices: seq<Device>, d: nat)
    requires d < |devices|
  {
    devices[d].parent == None
  }

  /** Devices are numbered so that parents come first. */
  predicate ParentsFirst(devices: seq<Device>) {
    forall d | 0 <= d < |devices| && devices[d].parent.Some? :: devices[d].parent.value < d
  }

  /**
    Only root bridges and PCI-to-PCI bridges have devices below them, in their own segment, and neither is a VGA device.
  */
  predicate Tree(devices: seq<Device>) {
    ParentsFirst(devices) &&
    (forall d | 0 <= d < |devices| && devices[d].parent.Some? ::
       var p := devices[d].parent.value;
       (devices[p].isBridge || IsRoot(devices, p)) && devices[p].segment == devices[d].segment) &&
    (forall d | 0 <= d < |devices| && (devices[d].isBridge || IsRoot(devices, d)) :: !devices[d].isVga)
  }

  /** Is a the device d or above it? */
  predicate AtOrAbove(devices: seq<Device>, a: nat, d: nat)
    requires ParentsFirst(devices) && d < |devices|
    decreases d
  {
    a == d || (devices[d].parent.Some? && AtOrAbove(devices, a, devices[d].parent.value))
  }

  /** The root bridge over a device. */
  function RootOf(devices: seq<Device>, d: nat): (r: nat)
    requires ParentsFirst(devices) && d < |devices|
    ensures r <= d && IsRoot(devices, r)
    decreases d
  {
    match devices[d].parent
    case None => d
    case Some(p) => RootOf(devices, p)
  }

  /** The child lists hold just the devices naming the list's owner as their parent. */
  ghost predicate Linked(devices: seq<Device>, children: seq<seq<nat>>, pool: seq<nat>) {
    |children| == |devices| &&
    (forall p, c: nat | 0 <= p < |devices| :: c in children[p] <==> c < |devices| && devices[c].parent == Some(p)) &&
    (forall r: nat :: r in pool <==> r < |devices| && IsRoot(devices, r))
  }

  lemma ChildOf(devices: seq<Device>, children: seq<seq<nat>>, pool: seq<nat>, p: nat, c: nat)
    requires Linked(devices, children, pool) && p < |devices| && c in children[p]
    ensures c < |devices| && devices[c].parent == Some(p)
  {
  }

  /** A device is p itself, or at or below one of p's first i children. */
  ghost predicate Seen(devices: seq<Device>, children: seq<seq<nat>>, p: nat, i: nat, x: nat)
    requires ParentsFirst(devices) && x < |devices| && p < |children| && i <= |children[p]|
  {
    x == p || exists j: nat :: j < i && AtOrAbove(devices, children[p][j], x)
  }

  lemma {:induction false} AboveIsLess(devices: seq<Device>, a: nat, d: nat)
    requires ParentsFirst(devices) && d < |devices| && AtOrAbove(devices, a, d)
    ensures a <= d
    decreases d
  {
    if a != d {
      AboveIsLess(devices, a, devices[d].parent.value);
    }
  }

  lemma {:induction false} RootIsAbove(devices: seq<Device>, d: nat)
    requires ParentsFirst(devices) && d < |devices|
    ensures AtOrAbove(devices, RootOf(devices, d), d)
    decreases d
  {
    if devices[d].parent.Some? {
      RootIsAbove(devices, devices[d].parent.value);
    }
  }

  /** Nothing is above a root bridge, and only one root bridge is above a device. */
  lemma {:induction false} OneRoot(devices: seq<Device>, a: nat, d: nat)
    requires ParentsFirst(devices) && d < |devices| && AtOrAbove(devices, a, d)
    ensures a <= d && RootOf(devices, a) == RootOf(devices, d)
    decreases d
  {
    if a != d {
      OneRoot(devices, a, devices[d].parent.value);
    }
  }

  lemma {:induction false} SameSegment(devices: seq<Device>, a: nat, d: nat)
    requires Tree(devices) && d < |devices| && AtOrAbove(devices, a, d)
    ensures a <= d && devices[a].segment == devices[d].segment
    decreases d
  {
    if a != d {
      SameSegment(devices, a, devices[d].parent.value);
    }
  }

  /** Below a device other than itself means at or below one of its children. */
  lemma {:induction false} ThroughChild(devices: seq<Device>, a: nat, d: nat) returns (c: nat)
    requires ParentsFirst(devices) && d < |devices| && AtOrAbove(devices, a, d) && a != d
    ensures c < |devices| && devices[c].parent == Some(a) && AtOrAbove(devices, c, d)
    decreases d
  {
    var p := devices[d].parent.value;
    if p == a {
      c := d;
    } else {
      c := ThroughChild(devices, a, p);
    }
  }

  lemma {:induction false} AboveParent(devices: seq<Device>, a: nat, c: nat, d: nat)
    requires ParentsFirst(devices) && d < |devices| && c < |devices| && devices[c].parent == Some(a)
    requires AtOrAbove(devices, c, d)
    ensures AtOrAbove(devices, a, d)
    decreases d
  {
    if c != d {
      AboveParent(devices, a, c, devices[d].parent.value);
    }
  }

  // ------------------------------------------------------------- supports and VGA

  /** Every device's supported attributes are among its parent's, but for I/O, memory and bus mastering. */
  predicate Nested(devices: seq<Device>, supports: seq<bv64>) {
    ParentsFirst(devices) && |supports| == |devices| &&
    forall d | 0 <= d < |devices| && devices[d].parent.Some? ::
      Within(supports[d], Or(supports[devices[d].parent.value], DEVICE_ENABLE))
  }

  /** A bridge supports VGA decoding of 10 or of 16 address bits, not of both. */
  predicate BridgesAgree(devices: seq<Device>, supports: seq<bv64>)
    requires |supports| == |devices|
  {
    forall d | 0 <= d < |devices| && devices[d].isBridge && devices[d].parent.Some? :: !Conflicting(supports[d])
  }

  /** An active VGA device: one that decodes legacy VGA resources. */
  predicate Active(devices: seq<Device>, attributes: seq<bv64>, d: nat)
    requires |attributes| == |devices| && d < |devices|
  {
    devices[d].isVga && Has(attributes[d], VGA_DECODE)
  }

  /** No segment has two active VGA devices. */
  predicate OneActive(devices: seq<Device>, attributes: seq<bv64>)
    requires |attributes| == |devices|
  {
    forall x, y | 0 <= x < |devices| && 0 <= y < |devices| && Active(devices, attributes, x) &&
                  Active(devices, attributes, y) && devices[x].segment == devices[y].segment :: x == y
  }

  /** No other device of the segment is active. */
  predicate NoOther(devices: seq<Device>, attributes: seq<bv64>, d: nat)
    requires |attributes| == |devices| && d < |devices|
  {
    forall x: nat | x < |devices| && Active(devices, attributes, x) && devices[x].segment == devices[d].segment :: x == d
  }

  /** Nothing at or below a device is active. */
  predicate Quiet(devices: seq<Device>, attributes: seq<bv64>, p: nat)
    requires ParentsFirst(devices) && |attributes| == |devices| && p < |devices|
  {
    forall x: nat | x < |devices| && AtOrAbove(devices, p, x) :: !Active(devices, attributes, x)
  }

  /** A device that is neither bridge nor root bridge has nothing below it. */
  lemma LeafIsAlone(devices: seq<Device>, d: nat, x: nat)
    requires Tree(devices) && d < |devices| && x < |devices| && AtOrAbove(devices, d, x)
    requires !devices[d].isBridge && !IsRoot(devices, d)
    ensures x == d
  {
    if x != d {
      var c := ThroughChild(devices, d, x);
    }
  }

  lemma QuietFromChildren(devices: seq<Device>, children: seq<seq<nat>>, pool: seq<nat>, attributes: seq<bv64>, p: nat)
    requires Tree(devices) && Linked(devices, children, pool) && |attributes| == |devices| && p < |devices|
    requires !devices[p].isVga
    requires forall j | 0 <= j < |children[p]| ::
               children[p][j] < |devices| && Quiet(devices, attributes, children[p][j])
    ensures Quiet(devices, attributes, p)
  {
    forall x: nat | x < |devices| && AtOrAbove(devices, p, x) && x != p
      ensures !Active(devices, attributes, x)
    {
      var c := ThroughChild(devices, p, x);
      assert c in children[p];
    }
  }

  // ------------------------------------------------------------- requests

  /** Neither a root bridge nor a bridge. */
  predicate Ordinary(devices: seq<Device>, d: nat)
    requires d < |devices|
  {
    devices[d].parent.Some? && !devices[d].isBridge
  }

  /** What the bridges above a device are asked for; a root bridge is itself asked for everything. */
  function Asked(devices: seq<Device>, d: nat, r: bv64): bv64
    requires d < |devices|
  {
    if IsRoot(devices, d) then r else Upstream(r)
  }

  /**
    What device x holds after r was enabled at d: d all of it, the bridges above what goes upstream, the root bridge
    what it made of that if it took it, and everything else what it held.
  */
  function AfterEnable(devices: seq<Device>, held: bv64, d: nat, r: bv64, x: nat, taken: bool, host: bv64): bv64
    requires ParentsFirst(devices) && d < |devices| && x < |devices|
  {
    if x == RootOf(devices, d) then (if taken then host else held)
    else if x == d then Or(held, r)
    else if AtOrAbove(devices, x, d) then Or(held, Upstream(r))
    else held
  }

  /** What device x holds once the snoop check at d has cleared the active VGA device's snoop bit. */
  function Snooped(devices: seq<Device>, attributes: seq<bv64>, d: nat, x: nat): bv64
    requires |attributes| == |devices| && d < |devices| && x < |devices|
  {
    if Active(devices, attributes, x) && devices[x].segment == devices[d].segment then Minus(attributes[x], SNOOP)
    else attributes[x]
  }

  /**
    The snoop check is meant for palette snooping, but the command-register bit it clears is the primary IDE decoder
    among attributes: that attribute goes, and the palette attribute stays as it was.
  */
  lemma SnoopedBits(devices: seq<Device>, attributes: seq<bv64>, d: nat, x: nat)
    requires |attributes| == |devices| && d < |devices| && x < |devices|
    requires Active(devices, attributes, x) && devices[x].segment == devices[d].segment
    ensures var after := Snooped(devices, attributes, d, x);
            && after == Minus(attributes[x], IDE_PRIMARY_IO) && !Has(after, IDE_PRIMARY_IO)
            && (Has(after, VGA_PALETTE_IO) <==> Has(attributes[x], VGA_PALETTE_IO))
            && (Has(after, VGA_DECODE) <==> Has(attributes[x], VGA_DECODE))
  {
    ClearedBits(attributes[x]);
  }

  lemma ClearedBits(a: bv64)
    ensures !Has(Minus(a, SNOOP), IDE_PRIMARY_IO)
    ensures Has(Minus(a, SNOOP), VGA_PALETTE_IO) <==> Has(a, VGA_PALETTE_IO)
    ensures Has(Minus(a, SNOOP), VGA_DECODE) <==> Has(a, VGA_DECODE)
  {
  }

  /**
    However a device's attributes change: VGA decoding is only ever gained by an ordinary device, and only while no
    other device of its segment decodes. Then there is still at most one active VGA device in each segment.
  */
  lemma OneActiveStays(devices: seq<Device>, before: seq<bv64>, after: seq<bv64>, d: nat)
    requires Tree(devices) && |before| == |after| == |devices| && d < |devices| && OneActive(devices, before)
    requires forall x: nat | x < |devices| && x != d && Active(devices, after, x) :: Active(devices, before, x)
    requires Active(devices, after, d) ==> Active(devices, before, d) || NoOther(devices, before, d)
    ensures OneActive(devices, after)
  {
  }

  /** Enabling at d is enabling at d alone, and then upstream attributes at its parent. */
  lemma EnableGoesUp(devices: seq<Device>, held: bv64, d: nat, r: bv64, x: nat, taken: bool, host: bv64)
    requires ParentsFirst(devices) && d < |devices| && devices[d].parent.Some? && x < |devices|
    ensures AfterEnable(devices, if x == d then Or(held, r) else held, devices[d].parent.value, Upstream(r), x, taken,
                        host) ==
            AfterEnable(devices, held, d, r, x, taken, host)
  {
    hide Or, Upstream;
    UpstreamTwice(r);
    var p := devices[d].parent.value;
    assert RootOf(devices, d) == RootOf(devices, p) <= p < d;
    assert AtOrAbove(devices, x, d) <==> x == d || AtOrAbove(devices, x, p);
    assert AtOrAbove(devices, p, p);
    if x == d && AtOrAbove(devices, x, devices[d].parent.value) {
      AboveIsLess(devices, x, devices[d].parent.value);
    }
  }

  lemma ParentIsLess(devices: seq<Device>, d: nat)
    requires Tree(devices) && d < |devices| && devices[d].parent.Some?
    ensures ParentsFirst(devices) && devices[d].parent.value < d
  {
  }

  lemma UpstreamTwice(r: bv64)
    ensures Upstream(Upstream(r)) == Upstream(r)
  {
  }

  /** The bridge above a device accepts what the device accepted and passes on. */
  lemma ParentAccepts(devices: seq<Device>, supports: seq<bv64>, d: nat, r: bv64)
    requires Tree(devices) && Nested(devices, supports) && d < |devices| && devices[d].parent.Some?
    requires !Conflicting(r) && Within(r, supports[d])
    ensures var p, up := devices[d].parent.value, Upstream(r);
            !Conflicting(up) && Within(up, supports[p]) && Requested(up, supports[p]) == up &&
            Asked(devices, p, up) == up && !Ordinary(devices, p)
  {
    hide Conflicting, Within, Or, Upstream, Requested;
    var p := devices[d].parent.value;
    UpstreamSupported(r, supports[d], supports[p]);
    UpstreamAgrees(r, supports[p]);
    UpstreamAsRequested(r, supports[p]);
  }

  /** Nothing at or above a device but the device itself can be an active VGA device. */
  lemma AfterEnableActive(devices: seq<Device>, before: seq<bv64>, after: seq<bv64>, d: nat, r: bv64)
    requires Tree(devices) && |before| == |after| == |devices| && d < |devices|
    requires OneActive(devices, before)
    requires after == before[d := Or(before[d], r)]
    requires Ordinary(devices, d) && Has(r, VGA_DECODE) ==> NoOther(devices, before, d)
    ensures OneActive(devices, after)
  {
    hide Has, Or;
    DecodesEither(before[d], r);
    OneActiveStays(devices, before, after, d);
  }

  lemma SnoopedActive(devices: seq<Device>, before: seq<bv64>, after: seq<bv64>, d: nat)
    requires Tree(devices) && |before| == |after| == |devices| && d < |devices|
    requires OneActive(devices, before)
    requires forall x: nat | x < |devices| :: after[x] == before[x] || after[x] == Snooped(devices, before, d, x)
    ensures OneActive(devices, after)
    ensures NoOther(devices, before, d) ==> NoOther(devices, after, d)
  {
    hide Has, Minus;
    forall x: nat | x < |devices| && Active(devices, after, x) ensures Active(devices, before, x) {
      DecodedBefore(before[x], SNOOP);
    }
  }

  lemma ClearedActive(devices: seq<Device>, before: seq<bv64>, d: nat, r: bv64)
    requires Tree(devices) && |before| == |devices| && d < |devices|
    requires OneActive(devices, before)
    ensures OneActive(devices, before[d := Minus(before[d], r)])
  {
    hide Has, Minus;
    DecodedBefore(before[d], r);
    OneActiveStays(devices, before, before[d := Minus(before[d], r)], d);
  }

  lemma RootActive(devices: seq<Device>, before: seq<bv64>, r: nat, a: bv64)
    requires Tree(devices) && |before| == |devices| && r < |devices| && IsRoot(devices, r)
    requires OneActive(devices, before)
    ensures OneActive(devices, before[r := a])
  {
    hide Has;
    OneActiveStays(devices, before, before[r := a], r);
  }

  /**
    After a request was enabled and taken, the device holds all of it, every bridge above it all but I/O, memory and bus
    mastering, and the root bridge that too without the embedded-device, embedded-ROM and dual-address-cycle bits, each
    beside what it held; a request at a root bridge itself goes there whole but for the latter. No other device changes.
  */
  lemma EnableReachesAll(devices: seq<Device>, held: bv64, d: nat, r: bv64, x: nat, rootHeld: bv64)
    requires ParentsFirst(devices) && d < |devices| && x < |devices|
    ensures var after := AfterEnable(devices, held, d, r, x, true, RootRequest(true, rootHeld, Asked(devices, d, r)));
            after ==
            if !AtOrAbove(devices, x, d) then held
            else if IsRoot(devices, x) then
              Or(rootHeld, Minus(if x == d then r else Minus(r, DEVICE_ENABLE), NOT_FOR_ROOT))
            else Or(held, if x == d then r else Minus(r, DEVICE_ENABLE))
  {
    hide Or, Minus, Upstream;
    UpstreamExactly(r);
    RootIsAbove(devices, d);
    if AtOrAbove(devices, x, d) {
      OneRoot(devices, x, d);
    }
  }

  /** Below a bridge, and at one, what is supported never conflicts. */
  lemma NoConflictBelowBridge(devices: seq<Device>, supports: seq<bv64>, d: nat)
    requires Tree(devices) && Nested(devices, supports) && BridgesAgree(devices, supports) && d < |devices|
    requires devices[d].parent.Some? && (devices[d].isBridge || !IsRoot(devices, devices[d].parent.value))
    ensures !Conflicting(supports[d])
  {
    hide Conflicting, Within, Or;
    if !devices[d].isBridge {
      var p := devices[d].parent.value;
      AgreesBelow(supports[d], supports[p]);
    }
  }

  lemma AgreesBelow(supports: bv64, above: bv64)
    requires Within(supports, Or(above, DEVICE_ENABLE)) && !Conflicting(above)
    ensures !Conflicting(supports)
  {
  }
}
