/**
  The PCI I/O attributes of devices: what each supports and holds to begin with, and the Set, Enable and Disable calls,
  which work their way up through the bridges.
*/
module DeviceAttributes {

  import opened PciTopology
  import opened AttributeBits
  import opened BitSets
  import opened AttributeTree
  import opened AttributeOffers

  /** What the platform answers in one call: the root bridge's two services, and the palette-snoop check. */
  datatype Snoop = Refused | Allowed | AllowedClearing
  datatype Answers = Answers(readable: bool, writable: bool, snoop: Snoop)

  /** Does a root bridge holding these attributes take a request? */
  predicate RootTakes(held: bv64, a: bv64, enable: bool, answers: Answers) {
    answers.readable && (RootRequest(enable, held, a) == held || answers.writable)
  }

  /**
    It does if it can be read and, unless it holds all that is to be enabled, or none of what is to be disabled, can be
    written as well.
  */
  lemma RootTakesExactly(held: bv64, a: bv64, enable: bool, answers: Answers)
    ensures var asked := Minus(a, NOT_FOR_ROOT);
            RootTakes(held, a, enable, answers) <==>
            answers.readable && (answers.writable || if enable then Within(asked, held) else !Has(held, asked))
  {
    hide RootRequest, Minus, Within, Has;
    RootUnchanged(enable, held, a);
  }

  /** All the devices of the platform; the root bridges are those in the pool. */
  class AttributePool {
    const devices: seq<Device>
    const children: seq<seq<nat>>
    const pool: seq<nat>
    const registers: seq<Registers>
    const embeddedRom: seq<bool>
    const isaAliases: bool
    const vgaAliases: bool
    /** What the root bridges themselves support and hold. */
    const hostSupports: seq<bv64>
    var host: seq<bv64>
    var supports: seq<bv64>
    var attributes: seq<bv64>

    ghost predicate Valid()
      reads this
    {
      Tree(devices) && Linked(devices, children, pool) &&
      |registers| == |embeddedRom| == |hostSupports| == |host| == |supports| == |attributes| == |devices|
    }

    // ----------------------------------------------------------- the active VGA device

    /** The active VGA device below a root bridge or bridge, if any. */
    method ActiveVGADeviceOnTheRootBridge(p: nat) returns (found: Option<nat>)
      requires Valid() && p < |devices| && !devices[p].isVga
      ensures found.None? ==> Quiet(devices, attributes, p)
      ensures found.Some? ==> found.value < |devices| && Active(devices, attributes, found.value) &&
                              AtOrAbove(devices, p, found.value)
      decreases |devices| - p
    {
      var i := 0;
      while i < |children[p]|
        invariant 0 <= i <= |children[p]|
        invariant forall j | 0 <= j < i :: children[p][j] < |devices| && Quiet(devices, attributes, children[p][j])
      {
        var t := children[p][i];
        assert t in children[p] && devices[t].parent == Some(p);
        if devices[t].isVga && Has(attributes[t], VGA_DECODE) {
          AboveParent(devices, p, t, t);
          return Some(t);
        }
        if devices[t].isBridge {
          found := ActiveVGADeviceOnTheRootBridge(t);
          if found.Some? {
            AboveParent(devices, p, t, found.value);
            return;
          }
        } else {
          forall x: nat | x < |devices| && AtOrAbove(devices, t, x) ensures !Active(devices, attributes, x) {
            LeafIsAlone(devices, t, x);
          }
        }
        i := i + 1;
      }
      QuietFromChildren(devices, children, pool, attributes, p);
      found := None;
    }

    /** The active VGA device of a device's segment, if any. */
    method ActiveVGADeviceOnTheSameSegment(d: nat) returns (found: Option<nat>)
      requires Valid() && d < |devices|
      ensures found.None? ==> forall x: nat | x < |devices| && devices[x].segment == devices[d].segment ::
                                !Active(devices, attributes, x)
      ensures found.Some? ==> found.value < |devices| && Active(devices, attributes, found.value) &&
                              devices[found.value].segment == devices[d].segment
    {
      var i := 0;
      while i < |pool|
        invariant 0 <= i <= |pool|
        invariant forall j | 0 <= j < i :: pool[j] < |devices| &&
                    (devices[pool[j]].segment == devices[d].segment ==> Quiet(devices, attributes, pool[j]))
      {
        var r := pool[i];
        assert r in pool && IsRoot(devices, r);
        if devices[r].segment == devices[d].segment {
          found := ActiveVGADeviceOnTheRootBridge(r);
          if found.Some? {
            SameSegment(devices, r, found.value);
            return;
          }
        }
        i := i + 1;
      }
      found := None;
      forall x: nat | x < |devices| && devices[x].segment == devices[d].segment
        ensures !Active(devices, attributes, x)
      {
        var r := RootOf(devices, x);
        RootIsAbove(devices, x);
        SameSegment(devices, r, x);
        assert r in pool;
      }
    }

    // ----------------------------------------------------------- the invariant

    /** What holds from the first moment on, whatever is called. */
    ghost predicate Settled()
      reads this
    {
      Valid() && Nested(devices, supports) && BridgesAgree(devices, supports) && OneActive(devices, attributes)
    }

    /** Before any determination nothing is supported and nothing is held. */
    constructor (devices: seq<Device>, children: seq<seq<nat>>, pool: seq<nat>, registers: seq<Registers>,
                 embeddedRom: seq<bool>, isaAliases: bool, vgaAliases: bool, hostSupports: seq<bv64>, host: seq<bv64>)
      requires Tree(devices) && Linked(devices, children, pool)
      requires |registers| == |embeddedRom| == |hostSupports| == |host| == |devices|
      ensures Settled() && this.devices == devices
    {
      this.devices, this.children, this.pool := devices, children, pool;
      this.registers, this.embeddedRom := registers, embeddedRom;
      this.isaAliases, this.vgaAliases := isaAliases, vgaAliases;
      this.hostSupports, this.host := hostSupports, host;
      supports := seq(|devices|, _ => 0);
      attributes := seq(|devices|, _ => 0);
    }

    // ----------------------------------------------------------- determination

    /** What a device should support, given what its parent does. */
    ghost function SupportsOf(x: nat): bv64
      requires Valid() && x < |devices|
      reads this
    {
      match devices[x].parent
      case None => Or(hostSupports[x], NOT_FOR_ROOT)
      case Some(p) =>
        Supported(Offered(devices[x], registers[x].command, ControlOf(devices[x], registers[x].control), isaAliases,
                          vgaAliases), supports[p])
    }

    ghost function InitialOf(x: nat): bv64
      requires Valid() && x < |devices|
      reads this
    {
      if IsRoot(devices, x) then host[x] else Initial(devices[x], registers[x], embeddedRom[x])
    }

    ghost predicate Determined(x: nat)
      requires Valid() && x < |devices|
      reads this
    {
      supports[x] == SupportsOf(x) && attributes[x] == InitialOf(x)
    }

    /** The supports and attributes of one device, read off its registers. */
    method PciSetDeviceAttribute(d: nat)
      requires Valid() && d < |devices| && devices[d].parent.Some?
      modifies this`supports, this`attributes
      ensures Valid()
      ensures supports == old(supports)[d := old(SupportsOf(d))]
      ensures attributes == old(attributes)[d := old(InitialOf(d))]
    {
      hide Or, And, Common, Particular, FromRegisters, Bit;
      var device, tested := devices[d], registers[d];
      var found := RegisterAttributes(tested.command, ControlOf(device, tested.control));
      var common := CommonAttributes(device, found, isaAliases);
      var offered := ParticularAttributes(device, common, vgaAliases);
      supports := supports[d := And(offered, Or(supports[devices[d].parent.value], DEVICE_ENABLE))];
      var held := RegisterAttributes(tested.oldCommand, ControlOf(device, tested.oldControl));
      attributes := attributes[d := Or(held, Bit(!embeddedRom[d], EMBEDDED_ROM))];
    }

    /** Attributes of everything at or below a device; only a root bridge that cannot be read is an error. */
    method DetermineDeviceAttribute(p: nat, readable: bool) returns (ok: bool)
      requires Valid() && p < |devices|
      modifies this`supports, this`attributes
      ensures Valid()
      ensures ok <==> readable || !IsRoot(devices, p)
      ensures !ok ==> supports == old(supports) && attributes == old(attributes)
      ensures ok ==> forall x: nat | x < |devices| && AtOrAbove(devices, p, x) :: Determined(x)
      ensures forall x: nat | x < |devices| && !AtOrAbove(devices, p, x) ::
                supports[x] == old(supports[x]) && attributes[x] == old(attributes[x])
      decreases |devices| - p
    {
      hide Or, And, Supported, Offered, Initial;
      if IsRoot(devices, p) {
        if !readable {
          return false;
        }
        supports := supports[p := Or(hostSupports[p], NOT_FOR_ROOT)];
        attributes := attributes[p := host[p]];
      } else {
        PciSetDeviceAttribute(p);
      }
      var i := 0;
      while i < |children[p]|
        invariant 0 <= i <= |children[p]| && Valid()
        invariant forall x: nat | x < |devices| && Seen(devices, children, p, i, x) :: Determined(x)
        invariant forall x: nat | x < |devices| && !AtOrAbove(devices, p, x) ::
                    supports[x] == old(supports[x]) && attributes[x] == old(attributes[x])
      {
        var t := children[p][i];
        ChildOf(devices, children, pool, p, t);
        label before:
        ok := DetermineDeviceAttribute(t, readable);
        forall x: nat | x < |devices| && Seen(devices, children, p, i + 1, x) ensures Determined(x) {
          if !AtOrAbove(devices, t, x) {
            assert Seen(devices, children, p, i, x);
            assert old@before(Determined(x));
          }
        }
        forall x: nat | x < |devices| && !AtOrAbove(devices, p, x)
          ensures supports[x] == old(supports[x]) && attributes[x] == old(attributes[x])
        {
          if AtOrAbove(devices, t, x) {
            AboveParent(devices, p, t, x);
          }
        }
        i := i + 1;
      }
      ok := true;
      forall x: nat | x < |devices| && AtOrAbove(devices, p, x) ensures Determined(x) {
        if x != p {
          var c := ThroughChild(devices, p, x);
          assert c in children[p];
        }
        assert Seen(devices, children, p, |children[p]|, x);
      }
    }

    /** Determination under a root bridge, from whatever state, keeps the invariant. */
    method DetermineRoot(r: nat, readable: bool) returns (ok: bool)
      requires Settled() && r < |devices| && IsRoot(devices, r)
      modifies this`supports, this`attributes
      ensures Settled() && ok == readable
      ensures ok ==> supports[r] == Or(hostSupports[r], NOT_FOR_ROOT) && attributes[r] == host[r]
      ensures ok ==> forall x: nat | x < |devices| && AtOrAbove(devices, r, x) :: Determined(x)
      ensures forall x: nat | x < |devices| && !AtOrAbove(devices, r, x) ::
                supports[x] == old(supports[x]) && attributes[x] == old(attributes[x])
    {
      hide Or, And, Supported, Offered, Initial, Within, Conflicting, Has;
      ok := DetermineDeviceAttribute(r, readable);
      if ok {
        forall x: nat | x < |devices| && devices[x].parent.Some?
          ensures Within(supports[x], Or(supports[devices[x].parent.value], DEVICE_ENABLE))
          ensures devices[x].isBridge ==> !Conflicting(supports[x])
          ensures Active(devices, attributes, x) ==> !AtOrAbove(devices, r, x)
        {
          var p := devices[x].parent.value;
          if AtOrAbove(devices, r, x) {
            assert Determined(x);
            DeterminedWell(x);
          } else {
            assert !AtOrAbove(devices, r, p);
          }
        }
        assert OneActive(devices, attributes);
      }
    }

    lemma DeterminedWell(x: nat)
      requires Valid() && x < |devices| && devices[x].parent.Some? && Determined(x)
      ensures Within(supports[x], Or(supports[devices[x].parent.value], DEVICE_ENABLE))
      ensures devices[x].isBridge ==> !Conflicting(supports[x])
      ensures !Active(devices, attributes, x)
    {
      hide Or, And, Supported, Common, Particular, Initial, Within, Conflicting, Has, FromRegisters;
      var device, tested := devices[x], registers[x];
      var offered := Offered(device, tested.command, ControlOf(device, tested.control), isaAliases, vgaAliases);
      SupportedWithin(offered, supports[device.parent.value]);
      if device.isBridge {
        BridgeAgrees(device, Common(device, FromRegisters(tested.command, tested.control), isaAliases), vgaAliases);
        StillAgrees(offered, supports[device.parent.value]);
      } else {
        StartsInactive(device, tested, embeddedRom[x]);
      }
    }

    // ----------------------------------------------------------- requests

    /** Ask a root bridge to take on, or to give up, attributes. */
    method ModifyRootBridgeAttributes(r: nat, a: bv64, enable: bool, answers: Answers) returns (ok: bool)
      requires Valid() && r < |devices|
      modifies this`attributes, this`host
      ensures Valid()
      ensures ok <==> RootTakes(old(host[r]), a, enable, answers)
      ensures var asked := Minus(a, NOT_FOR_ROOT);
              ok ==> attributes[r] == host[r] == if enable then Or(old(host[r]), asked) else Minus(old(host[r]), asked)
      ensures ok ==> host == old(host)[r := RootRequest(enable, old(host[r]), a)]
      ensures ok ==> attributes == old(attributes)[r := RootRequest(enable, old(host[r]), a)]
      ensures !ok ==> host == old(host) && attributes == old(attributes)
    {
      hide Or, Minus;
      if !answers.readable {
        return false;
      }
      var asked := Minus(a, NOT_FOR_ROOT);
      var wanted := if enable then Or(host[r], asked) else Minus(host[r], asked);
      if wanted != host[r] {
        if !answers.writable {
          return false;
        }
        host := host[r := wanted];
      }
      attributes := attributes[r := wanted];
      ok := true;
    }

    /** The checks a device makes itself. */
    ghost predicate Accepts(d: nat, r: bv64, enable: bool, answers: Answers)
      requires Valid() && d < |devices|
      reads this
    {
      !Conflicting(r) && Within(r, supports[d]) &&
      (Ordinary(devices, d) && enable ==>
         (Has(r, VGA_DECODE) ==> NoOther(devices, attributes, d)) && (Has(r, PALETTE) ==> answers.snoop != Refused))
    }

    /** Another device of the segment decodes VGA memory or VGA I/O. */
    ghost predicate DecodedElsewhere(d: nat)
      requires Valid() && d < |devices|
      reads this
    {
      exists x: nat :: x < |devices| && x != d && devices[x].segment == devices[d].segment && devices[x].isVga &&
                       Has(attributes[x], VGA_DECODE)
    }

    /** Every reason there is to refuse a request: a conflict, no support, a second VGA decoder, or the palette. */
    lemma AcceptsUnless(d: nat, r: bv64, enable: bool, answers: Answers)
      requires Valid() && d < |devices|
      ensures Accepts(d, r, enable, answers) <==>
                && !(Has(r, Or(VGA_IO, VGA_PALETTE_IO)) && Has(r, Or(VGA_IO_16, VGA_PALETTE_IO_16)))
                && Within(r, supports[d])
                && !(enable && devices[d].parent.Some? && !devices[d].isBridge &&
                     ((Has(r, VGA_DECODE) && DecodedElsewhere(d)) || (Has(r, PALETTE) && answers.snoop == Refused)))
    {
      hide Or, Has, Within, Conflicting;
      ConflictExactly(r);
      if DecodedElsewhere(d) {
        var x: nat :| x < |devices| && x != d && devices[x].segment == devices[d].segment && devices[x].isVga &&
                      Has(attributes[x], VGA_DECODE);
        assert Active(devices, attributes, x);
      }
    }

    /** What x holds once the checks at d have passed. */
    ghost function Checked(d: nat, r: bv64, enable: bool, answers: Answers, x: nat): bv64
      requires Valid() && d < |devices| && x < |devices|
      reads this
    {
      if Ordinary(devices, d) && enable && Has(r, PALETTE) && answers.snoop == AllowedClearing then
        Snooped(devices, attributes, d, x)
      else attributes[x]
    }

    /** The VGA and palette checks of an ordinary device. */
    method CheckVga(d: nat, r: bv64, answers: Answers) returns (ok: bool)
      requires Valid() && OneActive(devices, attributes) && d < |devices| && Ordinary(devices, d)
      requires !Conflicting(r) && Within(r, supports[d])
      modifies this`attributes
      ensures Valid()
      ensures ok <==> old(Accepts(d, r, true, answers))
      ensures !ok ==> attributes == old(attributes)
      ensures ok ==> forall x: nat | x < |devices| :: attributes[x] == old(Checked(d, r, true, answers, x))
    {
      hide Conflicting, Within, Has, Minus;
      var vga;
      if Has(r, VGA_DECODE) {
        vga := ActiveVGADeviceOnTheSameSegment(d);
        if vga.Some? && vga.value != d {
          return false;
        }
      }
      if Has(r, PALETTE) {
        if answers.snoop == Refused {
          return false;
        }
        vga := ActiveVGADeviceOnTheSameSegment(d);
        if vga.Some? && answers.snoop == AllowedClearing {
          attributes := attributes[vga.value := Minus(attributes[vga.value], SNOOP)];
        }
      }
      ok := true;
    }

    /** The root bridge's answer to a request from d. */
    ghost predicate Taken(d: nat, r: bv64, answers: Answers)
      requires Valid() && d < |devices|
      reads this
    {
      RootTakes(host[RootOf(devices, d)], Asked(devices, d, r), true, answers)
    }

    /** What the root bridge above d holds once it has taken a request from there. */
    ghost function HostAfter(d: nat, r: bv64): bv64
      requires Valid() && d < |devices|
      reads this
    {
      RootRequest(true, host[RootOf(devices, d)], Asked(devices, d, r))
    }

    /**
      Enable or disable attributes. A request that passes the device's own checks is refused by no bridge above it: it
      fails only if the root bridge fails it. Disabling touches the device alone; enabling leaves each bridge above
      with what goes upstream, whether or not the root bridge then takes it.
    */
    method ChangeAttributes(d: nat, enable: bool, a: bv64, answers: Answers) returns (ok: bool, ghost r: bv64)
      requires Settled() && d < |devices|
      modifies this`attributes, this`host
      ensures Settled()
      ensures r == if Within(DEVICE_ENABLE, a) then And(a, supports[d]) else a
      ensures !Within(DEVICE_ENABLE, a) && !Within(a, supports[d]) ==>
                !ok && attributes == old(attributes) && host == old(host)
      ensures enable && devices[d].parent.Some? && (devices[d].isBridge || (!Has(a, VGA_DECODE) && !Has(a, PALETTE))) &&
              (Within(DEVICE_ENABLE, a) || Within(a, supports[d])) ==>
                (ok <==> old(Taken(d, r, answers))) && attributes[d] == Or(old(attributes[d]), r)
      ensures !old(Accepts(d, r, enable, answers)) ==> !ok && attributes == old(attributes) && host == old(host)
      ensures old(Accepts(d, r, enable, answers)) && !enable && !IsRoot(devices, d) ==>
                ok && attributes == old(attributes)[d := Minus(old(attributes[d]), r)] && host == old(host)
      ensures old(Accepts(d, r, enable, answers)) && !enable && IsRoot(devices, d) ==>
                (ok <==> RootTakes(old(host[d]), r, false, answers)) &&
                host == (if ok then old(host)[d := RootRequest(false, old(host[d]), r)] else old(host)) &&
                attributes == if ok then old(attributes)[d := RootRequest(false, old(host[d]), r)] else old(attributes)
      ensures old(Accepts(d, r, enable, answers)) && enable ==>
                (ok <==> old(Taken(d, r, answers))) &&
                host == (if ok then old(host)[RootOf(devices, d) := old(HostAfter(d, r))] else old(host)) &&
                forall x: nat | x < |devices| ::
                  attributes[x] == AfterEnable(devices, old(Checked(d, r, true, answers, x)), d, r, x, ok,
                                               old(HostAfter(d, r)))
      decreases d, 3
    {
      hide Conflicting, Within, Has, Or, And, Minus, Requested, Accepts, Checked, AfterEnable, Taken, HostAfter,
           RootTakes, RootRequest, Nested, OneActive, BridgesAgree, Tree, Linked;
      RequestedExactly(a, supports[d]);
      r := Requested(a, supports[d]);
      if devices[d].parent.Some? && (devices[d].isBridge || (!Has(a, VGA_DECODE) && !Has(a, PALETTE))) &&
         Within(Requested(a, supports[d]), supports[d]) {
        Unopposed(d, a, answers);
      }
      if !Within(Requested(a, supports[d]), supports[d]) {
        UnsupportedRefused(d, Requested(a, supports[d]), enable, answers);
      }
      ok := ChangeRequested(d, enable, Requested(a, supports[d]), answers);
    }

    lemma UnsupportedRefused(d: nat, r: bv64, enable: bool, answers: Answers)
      requires Valid() && d < |devices| && !Within(r, supports[d])
      ensures !Accepts(d, r, enable, answers)
    {
    }

    /** The same for a request that is cut down already. */
    method ChangeRequested(d: nat, enable: bool, r: bv64, answers: Answers) returns (ok: bool)
      requires Settled() && d < |devices|
      modifies this`attributes, this`host
      ensures Settled()
      ensures !old(Accepts(d, r, enable, answers)) ==> !ok && attributes == old(attributes) && host == old(host)
      ensures old(Accepts(d, r, enable, answers)) && !enable && !IsRoot(devices, d) ==>
                ok && attributes == old(attributes)[d := Minus(old(attributes[d]), r)] && host == old(host)
      ensures old(Accepts(d, r, enable, answers)) && !enable && IsRoot(devices, d) ==>
                (ok <==> RootTakes(old(host[d]), r, false, answers)) &&
                host == (if ok then old(host)[d := RootRequest(false, old(host[d]), r)] else old(host)) &&
                attributes == if ok then old(attributes)[d := RootRequest(false, old(host[d]), r)] else old(attributes)
      ensures old(Accepts(d, r, enable, answers)) && enable ==>
                (ok <==> old(Taken(d, r, answers))) &&
                host == (if ok then old(host)[RootOf(devices, d) := old(HostAfter(d, r))] else old(host)) &&
                forall x: nat | x < |devices| ::
                  attributes[x] == AfterEnable(devices, old(Checked(d, r, true, answers, x)), d, r, x, ok,
                                               old(HostAfter(d, r)))
      decreases d, 2
    {
      hide Conflicting, Within, Has, Or, Minus, Upstream, Requested, RootRequest, Tree, Linked, Nested, OneActive,
           BridgesAgree, AfterEnable, AtOrAbove, NoOther, Snooped, RootTakes;
      if Conflicting(r) || !Within(r, supports[d]) {
        return false;
      }
      if devices[d].parent == None {
        ok := ChangeRoot(d, enable, r, answers);
        return;
      }
      if !enable {
        ClearedActive(devices, attributes, d, r);
        attributes := attributes[d := Minus(attributes[d], r)];
        return true;
      }
      if devices[d].isBridge {
        ok := EnableAndPassOn(d, r, answers);
      } else {
        ok := EnableOrdinary(d, r, answers);
      }
    }

    /** A bridge has nothing against what it supports, and a device nothing against it without VGA and palette bits. */
    lemma Unopposed(d: nat, a: bv64, answers: Answers)
      requires Settled() && d < |devices| && devices[d].parent.Some?
      requires devices[d].isBridge || (!Has(a, VGA_DECODE) && !Has(a, PALETTE))
      requires Within(DEVICE_ENABLE, a) || Within(a, supports[d])
      ensures var r := Requested(a, supports[d]);
              Accepts(d, r, true, answers) && forall x: nat | x < |devices| :: Checked(d, r, true, answers, x) == attributes[x]
      ensures forall taken: bool, host: bv64 ::
                AfterEnable(devices, attributes[d], d, Requested(a, supports[d]), d, taken, host) ==
                Or(attributes[d], Requested(a, supports[d]))
    {
      hide Conflicting, Within, Has, Or, Requested;
      var r := Requested(a, supports[d]);
      RequestedExactly(a, supports[d]);
      if devices[d].isBridge {
        WithinAgrees(r, supports[d]);
      } else {
        PlainRequest(a, supports[d]);
      }
    }

    /** Enable attributes at a device that is no bridge: the VGA and palette checks come first. */
    method EnableOrdinary(d: nat, r: bv64, answers: Answers) returns (ok: bool)
      requires Settled() && d < |devices| && Ordinary(devices, d)
      requires !Conflicting(r) && Within(r, supports[d])
      modifies this`attributes, this`host
      ensures Settled()
      ensures !old(Accepts(d, r, true, answers)) ==> !ok && attributes == old(attributes) && host == old(host)
      ensures old(Accepts(d, r, true, answers)) ==>
                (ok <==> old(Taken(d, r, answers))) &&
                host == (if ok then old(host)[RootOf(devices, d) := old(HostAfter(d, r))] else old(host)) &&
                forall x: nat | x < |devices| ::
                  attributes[x] == AfterEnable(devices, old(Checked(d, r, true, answers, x)), d, r, x, ok,
                                               old(HostAfter(d, r)))
      decreases d, 1
    {
      hide Conflicting, Within, Has, Or, Minus, Upstream, RootRequest, Tree, Linked, Nested, OneActive,
           BridgesAgree, AfterEnable, AtOrAbove, NoOther, Snooped, RootTakes;
      ghost var before := attributes;
      ok := CheckVga(d, r, answers);
      if ok {
        SnoopedActive(devices, before, attributes, d);
        ok := EnableAndPassOn(d, r, answers);
      }
    }

    method ChangeRoot(d: nat, enable: bool, r: bv64, answers: Answers) returns (ok: bool)
      requires Settled() && d < |devices| && IsRoot(devices, d)
      modifies this`attributes, this`host
      ensures Settled()
      ensures ok <==> RootTakes(old(host[d]), r, enable, answers)
      ensures host == if ok then old(host)[d := RootRequest(enable, old(host[d]), r)] else old(host)
      ensures attributes == if ok then old(attributes)[d := RootRequest(enable, old(host[d]), r)] else old(attributes)
      ensures enable ==> forall x: nat | x < |devices| ::
                attributes[x] == AfterEnable(devices, old(attributes[x]), d, r, x, ok, old(HostAfter(d, r)))
    {
      hide Or, Minus, Upstream, RootRequest, OneActive, Nested, BridgesAgree;
      RootActive(devices, attributes, d, RootRequest(enable, host[d], r));
      RootAlone(d, r);
      ok := ModifyRootBridgeAttributes(d, r, enable, answers);
    }

    /** Enable attributes the checks have passed, and ask the bridge above for what goes upstream. */
    method EnableAndPassOn(d: nat, r: bv64, answers: Answers) returns (ok: bool)
      requires Settled() && d < |devices| && devices[d].parent.Some?
      requires !Conflicting(r) && Within(r, supports[d])
      requires Ordinary(devices, d) && Has(r, VGA_DECODE) ==> NoOther(devices, attributes, d)
      modifies this`attributes, this`host
      ensures Settled()
      ensures ok <==> old(Taken(d, r, answers))
      ensures host == if ok then old(host)[RootOf(devices, d) := old(HostAfter(d, r))] else old(host)
      ensures forall x: nat | x < |devices| ::
                attributes[x] == AfterEnable(devices, old(attributes[x]), d, r, x, ok, old(HostAfter(d, r)))
      decreases d, 0
    {
      hide Conflicting, Within, Has, Or, Minus, Upstream, Requested, RootRequest, Tree, Linked, Nested, OneActive,
           BridgesAgree, AfterEnable, AtOrAbove, NoOther, RootTakes;
      AfterEnableActive(devices, attributes, attributes[d := Or(attributes[d], r)], d, r);
      attributes := attributes[d := Or(attributes[d], r)];
      ParentIsLess(devices, d);
      ParentAccepts(devices, supports, d, r);
      ghost var up;
      RequestedExactly(Upstream(r), supports[devices[d].parent.value]);
      ok, up := ChangeAttributes(devices[d].parent.value, true, Upstream(r), answers);
      forall x: nat | x < |devices|
        ensures attributes[x] == AfterEnable(devices, old(attributes[x]), d, r, x, ok, old(HostAfter(d, r)))
      {
        EnableGoesUp(devices, old(attributes[x]), d, r, x, ok, old(HostAfter(d, r)));
      }
    }

    lemma RootAlone(d: nat, r: bv64)
      requires Valid() && d < |devices| && IsRoot(devices, d)
      ensures forall x: nat, held: bv64, taken: bool, host: bv64 | x < |devices| ::
                AfterEnable(devices, held, d, r, x, taken, host) == if x == d && taken then host else held
    {
      hide Or, Upstream;
    }

    /**
      Set enables what was asked for and disables the rest of what the device supports. The second half is refused, with
      the first half done, exactly when the rest conflicts; below a bridge it never does.
    */
    method SetAttributes(d: nat, a: bv64, answers: Answers) returns (ok: bool, ghost r: bv64)
      requires Settled() && d < |devices| && devices[d].parent.Some?
      modifies this`attributes, this`host
      ensures Settled()
      ensures r == if Within(DEVICE_ENABLE, a) then And(a, supports[d]) else a
      ensures !old(Accepts(d, r, true, answers)) ==> !ok && attributes == old(attributes) && host == old(host)
      ensures old(Accepts(d, r, true, answers)) ==>
                (ok <==> old(Taken(d, r, answers)) && !Conflicting(Minus(supports[d], a))) &&
                forall x: nat | x < |devices| && (x != d || !ok) ::
                  attributes[x] == AfterEnable(devices, old(Checked(d, r, true, answers, x)), d, r, x,
                                               old(Taken(d, r, answers)), old(HostAfter(d, r)))
      ensures ok ==> And(attributes[d], supports[d]) == And(a, supports[d])
      ensures (old(Accepts(d, r, true, answers)) && old(Taken(d, r, answers)) &&
               (devices[d].isBridge || !IsRoot(devices, devices[d].parent.value))) ==> ok
    {
      hide Conflicting, Within, Has, Or, And, Minus, Upstream, Requested, RootRequest, Tree, Linked, Nested, OneActive,
           BridgesAgree, AtOrAbove, NoOther, RootTakes, Snooped;
      RequestedExactly(a, supports[d]);
      ok, r := ChangeAttributes(d, true, a, answers);
      if !ok {
        return;
      }
      DisableRequest(a, supports[d]);
      SetRest(d, a);
      RequestedExactly(Minus(supports[d], a), supports[d]);
      ghost var rest;
      ok, rest := ChangeAttributes(d, false, Minus(supports[d], a), answers);
    }

    lemma SetRest(d: nat, a: bv64)
      requires Settled() && d < |devices| && devices[d].parent.Some?
      ensures devices[d].isBridge || !IsRoot(devices, devices[d].parent.value) ==>
                !Conflicting(Minus(supports[d], a))
      ensures forall held: bv64 | Within(Requested(a, supports[d]), supports[d]) ::
                And(Minus(Or(held, Requested(a, supports[d])), Minus(supports[d], a)), supports[d]) ==
                And(a, supports[d])
    {
      hide Conflicting, Within, Has, Or, And, Minus, Upstream, Requested;
      if devices[d].isBridge || !IsRoot(devices, devices[d].parent.value) {
        NoConflictBelowBridge(devices, supports, d);
        AgreesWithin(supports[d], a);
      }
      forall held: bv64 | Within(Requested(a, supports[d]), supports[d])
        ensures And(Minus(Or(held, Requested(a, supports[d])), Minus(supports[d], a)), supports[d]) ==
                And(a, supports[d])
      {
        SetLeaves(held, a, supports[d]);
      }
    }
  }
}
