/**
  Which bus answers to a number once the bridges hold nested intervals, and what a reset that starts there leaves: the
  start of the reset between two enumerations is any number the host bridge happens to list first.
*/
module BusReach {
  import opened PciTopology
  import opened ConfigSpace
  import opened BusPlan
  import opened BusNumbering
  import opened BusWalk
  import BusReset

  /** The bus below bridge x. */
  ghost function BusAt(bus: Bus, x: Path, d: nat): Bus
    requires IsBridge(bus, x, d)
    decreases bus
  {
    if d + 1 == |x| then bus.fns[x[d]].below else BusAt(bus.fns[x[d]].below, x, d + 1)
  }

  lemma {:induction false} BusAtWellFormed(bus: Bus, x: Path, d: nat)
    requires WellFormed(bus) && IsBridge(bus, x, d)
    ensures WellFormed(BusAt(bus, x, d))
    decreases bus
  {
    if d + 1 < |x| {
      BusAtWellFormed(bus.fns[x[d]].below, x, d + 1);
    }
  }

  /** Whatever the hardware delivers an access to sits below a bridge with that secondary number. */
  lemma {:induction false} DeliveredBelow(bus: Bus, regs: RegFile, path: Path, b: nat, i: nat)
    requires i <= |bus.fns|
    ensures var t := Deliver(bus, regs, path, b, i);
            t.Some? ==> path < t.value.0 && IsBridge(bus, t.value.0, |path|) && At(regs, t.value.0).secondary == b
    decreases bus, |bus.fns| - i
  {
    if i < |bus.fns| {
      var q := path + [i];
      if bus.fns[i].Bridge? && Claims(At(regs, q), b) {
        if b != At(regs, q).secondary {
          DeliveredBelow(bus.fns[i].below, regs, q, b, 0);
          var t := Deliver(bus.fns[i].below, regs, q, b, 0);
          if t.Some? {
            assert t.value.0[|path|] == i;
          }
        }
      } else {
        DeliveredBelow(bus, regs, path, b, i + 1);
      }
    }
  }

  /** A number that is neither the root bus nor any bridge's secondary bus is answered by no bus. */
  lemma NobodyAnswers(root: Bus, rootNumber: nat, regs: RegFile, b: nat)
    requires b != rootNumber
    requires forall x {:trigger IsBridge(root, x, 0)} :: IsBridge(root, x, 0) ==> At(regs, x).secondary != b
    ensures Target(root, rootNumber, regs, b) == None
  {
    DeliveredBelow(root, regs, [], b, 0);
  }

  /** In a nested tree every bridge with a number is reached by that number, and nests what is below it. */
  lemma {:induction false} NumberReaches(at: Bus, regs: RegFile, p: Path, d: nat, s: nat, h: nat)
    requires IsBridge(at, p, d)
    requires Nested(regs, at, p[..d], s, h)
    requires forall k :: d < k <= |p| ==> At(regs, p[..k]).secondary != 0
    ensures var r := At(regs, p);
            && PathTo(at, regs, p, d, s, h, BusAt(at, p, d), r.secondary, r.subordinate)
            && Nested(regs, BusAt(at, p, d), p, r.secondary, r.subordinate)
    decreases at
  {
    var i := p[d];
    var q := p[..d + 1];
    assert p[..d] + [i] == q;
    assert at.fns[i].Bridge?;
    var r := At(regs, q);
    assert r.secondary != 0;
    var below := at.fns[i].below;
    assert Nested(regs, below, q, r.secondary, r.subordinate);
    if d + 1 == |p| {
      assert q == p;
      assert PathTo(below, regs, p, d + 1, r.secondary, r.subordinate, below, r.secondary, r.subordinate);
    } else {
      NumberReaches(below, regs, p, d + 1, r.secondary, r.subordinate);
    }
  }

  /** A reset of what is below one bridge leaves a nested tree nested. */
  lemma {:induction false} StaysNested(regs: RegFile, regs': RegFile, at: Bus, p: Path, d: nat, s: nat, h: nat)
    requires IsBridge(at, p, d)
    requires Nested(regs, at, p[..d], s, h)
    requires SameOutside(regs, regs', p) && ClearedFrom(regs', BusAt(at, p, d), p, 0)
    requires forall k :: d < k <= |p| ==> At(regs, p[..k]).secondary != 0
    ensures Nested(regs', at, p[..d], s, h)
    decreases at
  {
    var base := p[..d];
    forall i: nat | i < |at.fns| && at.fns[i].Bridge?
      ensures At(regs', base + [i]) == At(regs, base + [i])
      ensures i != p[d] ==> SameBranch(regs, regs', base + [i])
    {
      assert !(p < base + [i]);
      if i != p[d] {
        forall x {:trigger At(regs', x)} | base + [i] < x
          ensures At(regs', x) == At(regs, x)
        {
          assert x[d] == i;
        }
      }
    }
    forall i: nat | i < |at.fns| && at.fns[i].Bridge?
      ensures BusReset.NestedAt(regs', at, base, s, h, i)
    {
      assert BusReset.NestedAt(regs, at, base, s, h, i);
      if i != p[d] {
        BranchStays(regs, regs', at, base, s, h, i);
      } else {
        assert base + [i] == p[..d + 1];
        var r := At(regs, base + [i]);
        if d + 1 == |p| {
          assert p[..d + 1] == p;
          ClearedIsNested(regs', at.fns[i].below, p, r.secondary, r.subordinate);
        } else {
          StaysNested(regs, regs', at.fns[i].below, p, d + 1, r.secondary, r.subordinate);
        }
      }
    }
    forall i: nat, j: nat | i < |at.fns| && at.fns[i].Bridge? && j < |at.fns| && at.fns[j].Bridge? && j != i &&
                            At(regs', base + [i]).secondary != 0
      ensures Apart(At(regs', base + [j]), At(regs', base + [i]))
    {
    }
  }

  ghost predicate SameBranch(regs: RegFile, regs': RegFile, q: Path) {
    forall x {:trigger At(regs', x)} :: q < x ==> At(regs', x) == At(regs, x)
  }

  lemma BranchStays(regs: RegFile, regs': RegFile, bus: Bus, p: Path, s: nat, h: nat, i: nat)
    requires i < |bus.fns| && bus.fns[i].Bridge? && BusReset.NestedAt(regs, bus, p, s, h, i)
    requires At(regs', p + [i]) == At(regs, p + [i]) && SameBranch(regs, regs', p + [i])
    ensures BusReset.NestedAt(regs', bus, p, s, h, i)
  {
    var r := At(regs, p + [i]);
    var below := bus.fns[i].below;
    if r.secondary != 0 {
      NestedFrame(regs, regs', below, p + [i], r.secondary, r.subordinate);
    }
  }

  /** What is below bridge p in the whole topology is below the bus at p. */
  lemma {:induction false} BelowBus(at: Bus, p: Path, x: Path, d: nat)
    requires IsBridge(at, p, d) && IsBridge(at, x, d) && p < x
    ensures IsBridge(BusAt(at, p, d), x, |p|)
    decreases at
  {
    assert x[d] == p[d];
    if d + 1 < |p| {
      BelowBus(at.fns[p[d]].below, p, x, d + 1);
    }
  }

  // ------------------------------------------------------- the reset in between

  /** The bus with number b is the root bus, or sits below the bridge with b as its secondary bus. */
  ghost predicate Answers(root: Bus, rootNumber: nat, regs: RegFile, b: nat) {
    b == rootNumber || exists q :: HoldsNumber(root, regs, q, b)
  }

  ghost predicate HoldsNumber(root: Bus, regs: RegFile, q: Path, b: nat) {
    IsBridge(root, q, 0) && At(regs, q).secondary == b
  }

  /** Bridge x is below the bus with number b. */
  ghost predicate IsBelow(root: Bus, rootNumber: nat, regs: RegFile, b: nat, x: Path) {
    b == rootNumber || exists q :: HoldsNumber(root, regs, q, b) && q < x
  }

  /** A finished numbering from the root bus on. */
  ghost predicate Complete(regs: RegFile, flat: seq<nat>, root: Bus, rootNumber: nat) {
    && Ascending(flat) && Total(Scan, root) < |flat|
    && flat[0] == rootNumber
    && Numbered(regs, Scan, flat, root, 0, [], |root.fns|)
  }

  lemma CompleteIsNested(regs: RegFile, flat: seq<nat>, root: Bus, rootNumber: nat)
    requires Complete(regs, flat, root, rootNumber)
    ensures Nested(regs, root, [], rootNumber, MAX_BUS)
  {
    NumberedIsNested(regs, Scan, flat, root, 0, [], MAX_BUS);
  }

  lemma {:induction false} PrefixIsBridge(at: Bus, p: Path, d: nat, k: nat)
    requires IsBridge(at, p, d) && d < k <= |p|
    ensures IsBridge(at, p[..k], d)
    decreases at
  {
    if d + 1 < k {
      PrefixIsBridge(at.fns[p[d]].below, p, d + 1, k);
    }
  }

  /** In a finished numbering a bridge's number reaches the bus below it. */
  lemma CompleteReaches(regs: RegFile, flat: seq<nat>, root: Bus, rootNumber: nat, p: Path)
    requires Complete(regs, flat, root, rootNumber) && IsBridge(root, p, 0)
    ensures forall k :: 0 < k <= |p| ==> At(regs, p[..k]).secondary != 0
    ensures var r := At(regs, p);
            && Reaches(root, rootNumber, regs, p, BusAt(root, p, 0), r.secondary, r.subordinate)
            && Nested(regs, BusAt(root, p, 0), p, r.secondary, r.subordinate)
  {
    CompleteIsNested(regs, flat, root, rootNumber);
    forall k | 0 < k <= |p|
      ensures At(regs, p[..k]).secondary != 0
    {
      PrefixIsBridge(root, p, 0, k);
      BridgeNumbers(regs, Scan, flat, root, 0, p[..k]);
    }
    assert p[..0] == [];
    NumberReaches(root, regs, p, 0, rootNumber, MAX_BUS);
  }

  /** What a reset that started from bus b leaves of the registers regs, and whom it spoke to. */
  ghost predicate ResetFromBus(root: Bus, rootNumber: nat, regs: RegFile, regs': RegFile, b: nat) {
    forall x {:trigger IsBridge(root, x, 0)} :: IsBridge(root, x, 0) ==>
      At(regs', x) ==
        if IsBelow(root, rootNumber, regs, b, x) then BusRegs(0, 0, 0, At(regs, x).latency) else At(regs, x)
  }

  /** Reset from the bus of one bridge. */
  lemma BridgeWasReset(regs: RegFile, regs': RegFile, flat: seq<nat>, root: Bus, rootNumber: nat, p: Path)
    requires Complete(regs, flat, root, rootNumber) && IsBridge(root, p, 0)
    requires At(regs, p).secondary != rootNumber
    requires SameOutside(regs, regs', p) && SameLatency(regs, regs') && ClearedFrom(regs', BusAt(root, p, 0), p, 0)
    ensures ResetFromBus(root, rootNumber, regs, regs', At(regs, p).secondary)
    ensures Nested(regs', root, [], rootNumber, MAX_BUS)
  {
    var b := At(regs, p).secondary;
    CompleteReaches(regs, flat, root, rootNumber, p);
    CompleteIsNested(regs, flat, root, rootNumber);
    assert p[..0] == [];
    StaysNested(regs, regs', root, p, 0, rootNumber, MAX_BUS);
    forall x | IsBridge(root, x, 0)
      ensures At(regs', x) ==
                if IsBelow(root, rootNumber, regs, b, x) then BusRegs(0, 0, 0, At(regs, x).latency) else At(regs, x)
    {
      assert HoldsNumber(root, regs, p, b);
      if p < x {
        BelowBus(root, p, x, 0);
        assert At(regs', x).latency == At(regs, x).latency;
      } else if IsBelow(root, rootNumber, regs, b, x) {
        var q :| HoldsNumber(root, regs, q, b) && q < x;
        SecondariesDistinct(regs, Scan, flat, root, 0, p, if q == p then x else q);
      }
    }
  }

  /** Reset from the root bus. */
  lemma RootWasReset(regs: RegFile, regs': RegFile, root: Bus, rootNumber: nat)
    requires SameLatency(regs, regs') && ClearedFrom(regs', root, [], 0)
    ensures ResetFromBus(root, rootNumber, regs, regs', rootNumber)
    ensures Nested(regs', root, [], rootNumber, MAX_BUS)
  {
    ClearedIsNested(regs', root, [], rootNumber, MAX_BUS);
    forall x | IsBridge(root, x, 0)
      ensures At(regs', x) == BusRegs(0, 0, 0, At(regs, x).latency)
    {
      assert [] < x;
      assert At(regs', x).latency == At(regs, x).latency;
    }
  }

  /** If there is a bridge anywhere there is one on the root bus. */
  ghost predicate HasBridges(root: Bus) {
    exists i: nat :: i < |root.fns| && root.fns[i].Bridge?
  }

  lemma TopIsNumbered(regs: RegFile, flat: seq<nat>, root: Bus, rootNumber: nat, x: Path)
    requires Complete(regs, flat, root, rootNumber) && IsBridge(root, x, 0)
    ensures At(regs, x).secondary != 0
  {
    BridgeNumbers(regs, Scan, flat, root, 0, x);
  }

  /** The reset clears every bridge exactly if it started from the root bus, or there is no bridge to clear. */
  lemma ClearsAllExactly(regs: RegFile, regs': RegFile, flat: seq<nat>, root: Bus, rootNumber: nat, b: nat)
    requires Complete(regs, flat, root, rootNumber) && ResetFromBus(root, rootNumber, regs, regs', b)
    ensures ClearedFrom(regs', root, [], 0) <==> b == rootNumber || !HasBridges(root)
  {
    hide Complete, Numbered;
    if b != rootNumber && HasBridges(root) {
      var i: nat :| i < |root.fns| && root.fns[i].Bridge?;
      TopIsNumbered(regs, flat, root, rootNumber, [i]);
      assert IsBridge(root, [i], 0) && !IsBelow(root, rootNumber, regs, b, [i]);
      assert At(regs', [i]) == At(regs, [i]);
      assert !ClearedFrom(regs', root, [], 0);
    } else {
      forall x | IsBridge(root, x, 0)
        ensures Cleared(At(regs', x))
      {
        assert IsBelow(root, rootNumber, regs, b, x);
        assert root.fns[x[0]].Bridge?;
      }
    }
  }

  /**
    The reset between the two enumerations, from the bus number that the host bridge lists first. It clears the bridges
    below the bus with that number. If there is none, nobody answers and nothing is written.
  */
  method ResetBetween(fabric: ConfigFabric, start: Byte, uninitialised: bool, ghost flat: seq<nat>)
    requires WellFormed(fabric.root) && Complete(fabric.regs, flat, fabric.root, fabric.rootNumber)
    modifies fabric
    ensures Nested(fabric.regs, fabric.root, [], fabric.rootNumber, MAX_BUS)
    ensures SameLatency(old(fabric.regs), fabric.regs)
    ensures ResetFromBus(fabric.root, fabric.rootNumber, old(fabric.regs), fabric.regs, start)
    ensures if Answers(fabric.root, fabric.rootNumber, old(fabric.regs), start) then fabric.Routed(old(fabric.trace))
            else UnansweredOver(fabric.root, fabric.rootNumber, old(fabric.trace), fabric.trace)
    ensures ClearedFrom(fabric.regs, fabric.root, [], 0) <==>
            start == fabric.rootNumber || !HasBridges(fabric.root)
  {
    hide WellFormed, Nested, ClearedFrom, RoutedOver, UnansweredOver, SameOutside, SameLatency, Complete, ResetFromBus,
         IsBelow, PathTo, Target;
    ghost var root, number, regs0 := fabric.root, fabric.rootNumber, fabric.regs;
    SameTrans(regs0, regs0, regs0, []);
    CompleteIsNested(regs0, flat, root, number);
    ghost var reached, p, bus, h := true, [], root, MAX_BUS;
    if start != number {
      if q :| HoldsNumber(root, regs0, q, start) {
        p, bus, h := q, BusAt(root, q, 0), At(regs0, q).subordinate;
        BusAtWellFormed(root, q, 0);
        CompleteReaches(regs0, flat, root, number, q);
      } else {
        reached := false;
        NobodyHolds(root, number, regs0, start);
      }
    } else {
      RootReached(fabric);
    }
    BusReset.ResetAllPpbBusNumber(fabric, start, uninitialised, reached, p, bus, h);
    if !reached {
      NothingBelow(root, number, regs0, start);
    } else if start == number {
      RootWasReset(regs0, fabric.regs, root, number);
    } else {
      BridgeWasReset(regs0, fabric.regs, flat, root, number, p);
    }
    ClearsAllExactly(regs0, fabric.regs, flat, root, number, start);
  }

  lemma RootReached(fabric: ConfigFabric)
    ensures fabric.Faces([], fabric.root, fabric.rootNumber, MAX_BUS)
  {
  }

  lemma NobodyHolds(root: Bus, rootNumber: nat, regs: RegFile, b: nat)
    requires b != rootNumber && forall q :: !HoldsNumber(root, regs, q, b)
    ensures Target(root, rootNumber, regs, b) == None
  {
    forall x | IsBridge(root, x, 0)
      ensures At(regs, x).secondary != b
    {
      assert !HoldsNumber(root, regs, x, b);
    }
    NobodyAnswers(root, rootNumber, regs, b);
  }

  lemma NothingBelow(root: Bus, rootNumber: nat, regs: RegFile, b: nat)
    requires b != rootNumber && forall q :: !HoldsNumber(root, regs, q, b)
    ensures ResetFromBus(root, rootNumber, regs, regs, b)
  {
  }
}
