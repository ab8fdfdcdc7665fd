/** The devices the bus driver has found under its root bridges, and their removal. */
module DeviceTree {
  import opened PciTopology

  /**
    What never changes about a device, as far as rejection and option ROMs ask. Root bridges have no parent; devices are
    numbered in order of discovery. Attribute handling asks for other things, of a tree without removals: that is
    AttributeTree.Device.
  */
  datatype Device = Device(bridge: bool, vga: bool, bus: nat, romSize: nat, parent: Option<nat>)

  /** A device the driver may give up: not a bridge of either kind, not on bus 0, not a VGA controller. */
  predicate Rejectable(d: Device) {
    !d.bridge && d.parent.Some? && d.bus != 0 && !d.vga
  }

  predicate NoDuplicates(s: seq<nat>) {
    forall i, j :: 0 <= i < j < |s| ==> s[i] != s[j]
  }

  /** s without its elements in r, order kept. */
  function Without(s: seq<nat>, r: set<nat>): (w: seq<nat>)
    ensures forall x :: x in w <==> x in s && x !in r
  {
    if s == [] then []
    else if s[0] in r then Without(s[1..], r)
    else [s[0]] + Without(s[1..], r)
  }

  lemma {:induction false} WithoutNone(s: seq<nat>, r: set<nat>)
    requires forall x :: x in s ==> x !in r
    ensures Without(s, r) == s
  {
    if s != [] {
      assert forall x :: x in s[1..] ==> x in s;
      WithoutNone(s[1..], r);
    }
  }

  lemma {:induction false} WithoutTwice(s: seq<nat>, r: set<nat>, r': set<nat>)
    ensures Without(Without(s, r), r') == Without(s, r + r')
  {
    if s != [] {
      WithoutTwice(s[1..], r, r');
      if s[0] !in r {
        assert ([s[0]] + Without(s[1..], r))[1..] == Without(s[1..], r);
      }
    }
  }

  /** Cutting the one occurrence of x out of s. */
  lemma {:induction false} WithoutOne(s: seq<nat>, k: nat)
    requires NoDuplicates(s) && k < |s|
    ensures Without(s, {s[k]}) == s[..k] + s[k + 1..]
  {
    if k == 0 {
      assert forall x :: x in s[1..] ==> x != s[0];
      WithoutNone(s[1..], {s[0]});
      assert s[..0] + s[1..] == s[1..];
    } else {
      WithoutOne(s[1..], k - 1);
      assert s[..k] + s[k + 1..] == [s[0]] + (s[1..][..k - 1] + s[1..][k..]);
    }
  }

  lemma {:induction false} WithoutKeepsOrder(s: seq<nat>, r: set<nat>)
    requires NoDuplicates(s)
    ensures NoDuplicates(Without(s, r))
  {
    if s != [] {
      WithoutKeepsOrder(s[1..], r);
      assert forall x :: x in s[1..] ==> x != s[0];
    }
  }

  /** Parents come before their children, and child lists name only children, each once. */
  ghost predicate Consistent(devices: seq<Device>, children: seq<seq<nat>>) {
    && |children| == |devices|
    && (forall d :: 0 <= d < |devices| && devices[d].parent.Some? ==> devices[d].parent.value < d)
    && (forall b :: 0 <= b < |children| ==> NoDuplicates(children[b]))
    && (forall b, c {:trigger c in children[b]} :: 0 <= b < |children| && c in children[b] ==>
          b < c < |devices| && devices[c].parent == Some(b))
  }

  /** The devices of r that are bridges. */
  ghost function Bridges(devices: seq<Device>, r: set<nat>): set<nat> {
    set d | d in r && d < |devices| && devices[d].bridge
  }

  /** children' and padding' are what is left once bridges in r lost their padding and the other devices in r left their lists. */
  ghost predicate After(devices: seq<Device>, children: seq<seq<nat>>, padding: set<nat>,
                        children': seq<seq<nat>>, padding': set<nat>, r: set<nat>)
  {
    && |children'| == |children|
    && (forall b :: 0 <= b < |children| ==> children'[b] == Without(children[b], r - Bridges(devices, r)))
    && padding' == padding - Bridges(devices, r)
  }

  lemma AfterNothing(devices: seq<Device>, children: seq<seq<nat>>, padding: set<nat>)
    ensures After(devices, children, padding, children, padding, {})
  {
    assert Bridges(devices, {}) == {};
    forall b | 0 <= b < |children|
      ensures children[b] == Without(children[b], {} - Bridges(devices, {}))
    {
      WithoutNone(children[b], {} - Bridges(devices, {}));
    }
  }

  lemma AfterPadding(devices: seq<Device>, children: seq<seq<nat>>, padding: set<nat>, d: nat)
    requires d < |devices| && devices[d].bridge
    ensures After(devices, children, padding, children, padding - {d}, {d})
  {
    assert Bridges(devices, {d}) == {d};
    forall b | 0 <= b < |children|
      ensures children[b] == Without(children[b], {d} - Bridges(devices, {d}))
    {
      WithoutNone(children[b], {d} - Bridges(devices, {d}));
    }
  }

  lemma AfterCut(devices: seq<Device>, children: seq<seq<nat>>, padding: set<nat>, b: nat, k: nat)
    requires Consistent(devices, children)
    requires b < |children| && k < |children[b]| && children[b][k] < |devices| && !devices[children[b][k]].bridge
    ensures var children' := children[b := children[b][..k] + children[b][k + 1..]];
            After(devices, children, padding, children', padding, {children[b][k]})
  {
    var d := children[b][k];
    assert d in children[b];
    assert Bridges(devices, {d}) == {};
    assert {d} - {} == {d};
    WithoutOne(children[b], k);
    forall a | 0 <= a < |children| && a != b
      ensures children[a] == Without(children[a], {d})
    {
      assert d !in children[a];
      WithoutNone(children[a], {d});
    }
  }

  /** Removals keep the lists consistent, and two removals are one of both. */
  lemma AfterKeeps(devices: seq<Device>, children: seq<seq<nat>>, padding: set<nat>,
                   children': seq<seq<nat>>, padding': set<nat>, r: set<nat>)
    requires Consistent(devices, children)
    requires After(devices, children, padding, children', padding', r)
    ensures Consistent(devices, children')
  {
    forall b | 0 <= b < |children|
      ensures NoDuplicates(children'[b])
      ensures forall c :: c in children'[b] ==> c in children[b]
    {
      WithoutKeepsOrder(children[b], r - Bridges(devices, r));
    }
  }

  lemma AfterTwice(devices: seq<Device>, c0: seq<seq<nat>>, p0: set<nat>, c1: seq<seq<nat>>, p1: set<nat>,
                   c2: seq<seq<nat>>, p2: set<nat>, r: set<nat>, r': set<nat>)
    requires After(devices, c0, p0, c1, p1, r) && After(devices, c1, p1, c2, p2, r')
    ensures After(devices, c0, p0, c2, p2, r + r')
  {
    assert Bridges(devices, r + r') == Bridges(devices, r) + Bridges(devices, r');
    assert (r + r') - Bridges(devices, r + r') == (r - Bridges(devices, r)) + (r' - Bridges(devices, r'));
    forall b | 0 <= b < |c0|
      ensures c2[b] == Without(c0[b], (r + r') - Bridges(devices, r + r'))
    {
      WithoutTwice(c0[b], r - Bridges(devices, r), r' - Bridges(devices, r'));
    }
  }

  class DevicePool {
    const devices: seq<Device>
    /** The child list of each device. */
    var children: seq<seq<nat>>
    /** The devices that hold resource padding descriptors. */
    var padding: set<nat>

    constructor (devices: seq<Device>, children: seq<seq<nat>>, padding: set<nat>)
      requires Consistent(devices, children)
      ensures this.devices == devices && this.children == children && this.padding == padding
      ensures Valid()
    {
      this.devices := devices;
      this.children := children;
      this.padding := padding;
    }

    ghost predicate Valid()
      reads this
    {
      Consistent(devices, children)
    }

    /** The device is in its parent's child list. */
    ghost predicate Listed(d: nat)
      requires Valid()
      reads this
    {
      d < |devices| && devices[d].parent.Some? && d in children[devices[d].parent.value]
    }

    /** What a rejection of d can take away: a bridge's padding, or a listed device that is not a bridge. */
    ghost predicate CanReject(d: nat)
      requires Valid()
      reads this
    {
      d < |devices| && if devices[d].bridge then d in padding else Listed(d)
    }

    /** Give up a bridge's padding, or take a device out of its parent's child list. */
    method RejectPciDevice(d: nat) returns (ok: bool)
      requires Valid() && d < |devices|
      modifies this
      ensures Valid()
      ensures ok == old(CanReject(d))
      ensures ok && devices[d].bridge ==> children == old(children) && old(d in padding) && padding == old(padding) - {d}
      ensures ok && !devices[d].bridge ==>
                && padding == old(padding) && devices[d].parent.Some?
                && var p := devices[d].parent.value;
                && (forall b :: 0 <= b < |children| && b != p ==> children[b] == old(children)[b])
                && (forall x :: x in children[p] <==> x in old(children)[p] && x != d)
      ensures After(devices, old(children), old(padding), children, padding, if ok then {d} else {})
    {
      AfterNothing(devices, children, padding);
      if devices[d].bridge && d in padding {
        AfterPadding(devices, children, padding, d);
        padding := padding - {d};
        return true;
      }
      if devices[d].bridge || devices[d].parent.None? {
        return false;
      }
      var bridge := devices[d].parent.value;
      var link := 0;
      while link < |children[bridge]|
        invariant link <= |children[bridge]|
        invariant children == old(children) && padding == old(padding)
        invariant d !in children[bridge][..link]
      {
        if children[bridge][link] == d {
          AfterCut(devices, children, padding, bridge, link);
          children := children[bridge := children[bridge][..link] + children[bridge][link + 1..]];
          AfterKeeps(devices, old(children), padding, children, padding, {d});
          return true;
        }
        link := link + 1;
      }
      return false;
    }
  }

  // -------------------------------------------------------------- progress

  ghost function RejectableListed(devices: seq<Device>, children: seq<seq<nat>>): set<nat>
    requires Consistent(devices, children)
  {
    set d: nat | d < |devices| && Rejectable(devices[d]) && d in children[devices[d].parent.value]
  }

  /** Rejectable devices still listed, plus bridges still holding padding. */
  ghost function Weight(devices: seq<Device>, children: seq<seq<nat>>, padding: set<nat>): nat
    requires Consistent(devices, children)
  {
    |RejectableListed(devices, children)| + |Bridges(devices, padding)|
  }

  /** What a removal leaves of the listed rejectable devices. */
  lemma ListedAfter(devices: seq<Device>, children: seq<seq<nat>>, padding: set<nat>,
                    children': seq<seq<nat>>, padding': set<nat>, r: set<nat>)
    requires Consistent(devices, children) && Consistent(devices, children')
    requires After(devices, children, padding, children', padding', r)
    ensures RejectableListed(devices, children') == RejectableListed(devices, children) - r
  {
    forall c: nat | c < |devices| && Rejectable(devices[c])
      ensures c in RejectableListed(devices, children') <==> c in RejectableListed(devices, children) && c !in r
    {
      var b := devices[c].parent.value;
      assert children'[b] == Without(children[b], r - Bridges(devices, r));
    }
  }

  /** Each removal of a rejectable device or of a bridge's padding lowers the weight by one. */
  lemma RemovalLowersWeight(devices: seq<Device>, children: seq<seq<nat>>, padding: set<nat>,
                            children': seq<seq<nat>>, padding': set<nat>, d: nat)
    requires Consistent(devices, children) && Consistent(devices, children')
    requires After(devices, children, padding, children', padding', {d})
    requires d < |devices|
    requires if devices[d].bridge then d in padding
             else Rejectable(devices[d]) && d in children[devices[d].parent.value]
    ensures Weight(devices, children', padding') == Weight(devices, children, padding) - 1
  {
    ListedAfter(devices, children, padding, children', padding', {d});
    hide Consistent, Without;
    if devices[d].bridge {
      assert Bridges(devices, {d}) == {d};
      assert d !in RejectableListed(devices, children);
      assert RejectableListed(devices, children') == RejectableListed(devices, children);
      assert Bridges(devices, padding') == Bridges(devices, padding) - {d};
    } else {
      assert Bridges(devices, {d}) == {};
      assert padding' == padding;
      assert d in RejectableListed(devices, children);
    }
  }
}
