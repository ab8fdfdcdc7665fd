/** Bus numbers in bridge registers: what a complete numbering looks like, and why its intervals nest. */
module BusNumbering {
  import opened PciTopology
  import opened BusPlan

  /** Element k of the flat list of available bus numbers. */
  function Nth(flat: seq<nat>, k: nat): nat {
    if k < |flat| then flat[k] else MAX_BUS + 1
  }

  ghost predicate Ascending(flat: seq<nat>) {
    && (forall a, b :: 0 <= a < b < |flat| ==> flat[a] < flat[b])
    && (forall a :: 0 <= a < |flat| ==> flat[a] <= MAX_BUS)
  }

  /** The registers of bridge x hold the numbers at its three ordinals. */
  ghost predicate NumberedAs(r: BusRegs, w: Walk, flat: seq<nat>, bus: Bus, o: nat, x: Path, d: nat)
    requires IsBridge(bus, x, d)
  {
    && r.primary == Nth(flat, PrimaryOrd(w, bus, o, x, d))
    && r.secondary == Nth(flat, SecondaryOrd(w, bus, o, x, d))
    && r.subordinate == Nth(flat, SubordinateOrd(w, bus, o, x, d))
  }

  /** All bridges below the bus at p are numbered, as far as they are reached through positions below i. */
  ghost predicate Numbered(regs: RegFile, w: Walk, flat: seq<nat>, bus: Bus, o: nat, p: Path, i: nat) {
    forall x {:trigger IsBridge(bus, x, |p|)} ::
      p < x && IsBridge(bus, x, |p|) && x[|p|] < i ==> NumberedAs(At(regs, x), w, flat, bus, o, x, |p|)
  }

  ghost predicate ClearedFrom(regs: RegFile, bus: Bus, p: Path, i: nat) {
    forall x {:trigger IsBridge(bus, x, |p|)} ::
      p < x && IsBridge(bus, x, |p|) && i <= x[|p|] ==> Cleared(At(regs, x))
  }

  ghost predicate SameLatency(regs: RegFile, regs': RegFile) {
    forall x {:trigger At(regs', x)} :: At(regs', x).latency == At(regs, x).latency
  }

  // ----------------------------------------------------- a complete numbering

  /** The order of the flat list carries over to the numbers. */
  lemma NthOrder(flat: seq<nat>, a: nat, b: nat)
    requires Ascending(flat)
    requires a <= b < |flat|
    ensures Nth(flat, a) <= Nth(flat, b) <= MAX_BUS
    ensures a < b ==> Nth(flat, a) < Nth(flat, b)
  {
  }

  lemma BridgeNumbers(regs: RegFile, w: Walk, flat: seq<nat>, root: Bus, o: nat, x: Path)
    requires Ascending(flat) && o + Total(w, root) < |flat|
    requires Numbered(regs, w, flat, root, o, [], |root.fns|)
    requires IsBridge(root, x, 0)
    ensures NumberedAs(At(regs, x), w, flat, root, o, x, 0)
    ensures At(regs, x).primary < At(regs, x).secondary <= At(regs, x).subordinate
    ensures At(regs, x).secondary in flat && At(regs, x).subordinate in flat
    ensures |x| == 1 ==> At(regs, x).primary == flat[o]
  {
    OrdBounds(w, root, o, x, 0);
    NthOrder(flat, PrimaryOrd(w, root, o, x, 0), SecondaryOrd(w, root, o, x, 0));
    NthOrder(flat, SecondaryOrd(w, root, o, x, 0), SubordinateOrd(w, root, o, x, 0));
  }

  /** A bridge below another: intervals nest, and its primary bus is the bus it sits on. */
  lemma IntervalsNest(regs: RegFile, w: Walk, flat: seq<nat>, root: Bus, o: nat, x: Path, y: Path)
    requires Ascending(flat) && o + Total(w, root) < |flat|
    requires Numbered(regs, w, flat, root, o, [], |root.fns|)
    requires IsBridge(root, x, 0) && IsBridge(root, y, 0)
    requires x < y
    ensures At(regs, x).secondary < At(regs, y).secondary <= At(regs, y).subordinate <= At(regs, x).subordinate
    ensures |y| == |x| + 1 ==> At(regs, y).primary == At(regs, x).secondary
  {
    BridgeNumbers(regs, w, flat, root, o, x);
    BridgeNumbers(regs, w, flat, root, o, y);
    OrdBounds(w, root, o, x, 0);
    OrdBounds(w, root, o, y, 0);
    OrdNested(w, root, o, x, y, 0);
    NthOrder(flat, SecondaryOrd(w, root, o, x, 0), SecondaryOrd(w, root, o, y, 0));
    NthOrder(flat, SubordinateOrd(w, root, o, y, 0), SubordinateOrd(w, root, o, x, 0));
    if |y| == |x| + 1 {
      OrdParent(w, root, o, x, y, 0);
    }
  }

  /** Bridges on different branches: intervals are disjoint. */
  lemma IntervalsDisjoint(regs: RegFile, w: Walk, flat: seq<nat>, root: Bus, o: nat, x: Path, y: Path)
    requires Ascending(flat) && o + Total(w, root) < |flat|
    requires Numbered(regs, w, flat, root, o, [], |root.fns|)
    requires IsBridge(root, x, 0) && IsBridge(root, y, 0)
    requires !(x <= y) && !(y <= x)
    ensures At(regs, x).subordinate < At(regs, y).secondary || At(regs, y).subordinate < At(regs, x).secondary
  {
    BridgeNumbers(regs, w, flat, root, o, x);
    BridgeNumbers(regs, w, flat, root, o, y);
    OrdBounds(w, root, o, x, 0);
    OrdBounds(w, root, o, y, 0);
    var e := PathsPart(x, y);
    OrdDisjoint(w, root, o, x, y, 0, e);
    if SubordinateOrd(w, root, o, x, 0) < SecondaryOrd(w, root, o, y, 0) {
      NthOrder(flat, SubordinateOrd(w, root, o, x, 0), SecondaryOrd(w, root, o, y, 0));
    } else {
      NthOrder(flat, SubordinateOrd(w, root, o, y, 0), SecondaryOrd(w, root, o, x, 0));
    }
  }

  /** No two bridges share a secondary bus number. */
  lemma SecondariesDistinct(regs: RegFile, w: Walk, flat: seq<nat>, root: Bus, o: nat, x: Path, y: Path)
    requires Ascending(flat) && o + Total(w, root) < |flat|
    requires Numbered(regs, w, flat, root, o, [], |root.fns|)
    requires IsBridge(root, x, 0) && IsBridge(root, y, 0)
    requires x != y
    ensures At(regs, x).secondary != At(regs, y).secondary
  {
    if x < y {
      IntervalsNest(regs, w, flat, root, o, x, y);
    } else if y < x {
      IntervalsNest(regs, w, flat, root, o, y, x);
    } else {
      IntervalsDisjoint(regs, w, flat, root, o, x, y);
      BridgeNumbers(regs, w, flat, root, o, x);
      BridgeNumbers(regs, w, flat, root, o, y);
    }
  }

  // ------------------------------------------------- states a reset can handle

  /**
    Below the bus at p, numbered s and owning numbers up to h: a bridge is either cleared, with everything below it
    cleared too, or it holds an interval inside s..h that keeps apart from its siblings, and the same holds below it.
  */
  ghost predicate Nested(regs: RegFile, bus: Bus, p: Path, s: nat, h: nat)
    decreases bus
  {
    forall i: nat {:trigger bus.fns[i]} :: i < |bus.fns| && bus.fns[i].Bridge? ==>
      var r := At(regs, p + [i]);
      var below := bus.fns[i].below;
      if r.secondary == 0 then Cleared(r) && ClearedFrom(regs, below, p + [i], 0)
      else
        && s < r.secondary <= r.subordinate <= h
        && (forall j: nat {:trigger bus.fns[j]} :: j < |bus.fns| && bus.fns[j].Bridge? && j != i ==>
              Apart(At(regs, p + [j]), r))
        && Nested(regs, below, p + [i], r.secondary, r.subordinate)
  }

  lemma {:induction false} NestedFrame(regs: RegFile, regs': RegFile, bus: Bus, p: Path, s: nat, h: nat)
    requires Nested(regs, bus, p, s, h)
    requires forall x {:trigger At(regs', x)} :: p < x ==> At(regs', x) == At(regs, x)
    ensures Nested(regs', bus, p, s, h)
    decreases bus
  {
    forall i: nat | i < |bus.fns| && bus.fns[i].Bridge?
      ensures At(regs', p + [i]) == At(regs, p + [i])
      ensures At(regs, p + [i]).secondary != 0 ==>
                Nested(regs', bus.fns[i].below, p + [i], At(regs, p + [i]).secondary, At(regs, p + [i]).subordinate)
    {
      if At(regs, p + [i]).secondary != 0 {
        NestedFrame(regs, regs', bus.fns[i].below, p + [i], At(regs, p + [i]).secondary, At(regs, p + [i]).subordinate);
      }
    }
  }

  /** A cleared tree can be reset. */
  lemma ClearedIsNested(regs: RegFile, bus: Bus, p: Path, s: nat, h: nat)
    requires ClearedFrom(regs, bus, p, 0)
    ensures Nested(regs, bus, p, s, h)
  {
    forall i: nat | i < |bus.fns| && bus.fns[i].Bridge?
      ensures Cleared(At(regs, p + [i])) && ClearedFrom(regs, bus.fns[i].below, p + [i], 0)
    {
      assert IsBridge(bus, p + [i], |p|);
      forall x | p + [i] < x && IsBridge(bus.fns[i].below, x, |p| + 1)
        ensures Cleared(At(regs, x))
      {
        assert x[|p|] == i;
        assert IsBridge(bus, x, |p|);
      }
    }
  }

  /** A completed numbering can be reset. */
  lemma {:induction false} NumberedIsNested(regs: RegFile, w: Walk, flat: seq<nat>, bus: Bus, o: nat, p: Path, h: nat)
    requires Ascending(flat) && o + Total(w, bus) < |flat|
    requires Numbered(regs, w, flat, bus, o, p, |bus.fns|)
    requires flat[o + Total(w, bus)] <= h
    ensures Nested(regs, bus, p, flat[o], h)
    decreases bus, 1
  {
    forall i: nat | i < |bus.fns| && bus.fns[i].Bridge?
      ensures var r := At(regs, p + [i]);
              && r.secondary != 0
              && flat[o] < r.secondary <= r.subordinate <= h
              && Nested(regs, bus.fns[i].below, p + [i], r.secondary, r.subordinate)
      ensures forall j: nat {:trigger bus.fns[j]} :: j < |bus.fns| && bus.fns[j].Bridge? && j != i ==>
                Apart(At(regs, p + [j]), At(regs, p + [i]))
    {
      NumberedChild(regs, w, flat, bus, o, p, h, i);
      forall j: nat | j < |bus.fns| && bus.fns[j].Bridge? && j != i
        ensures Apart(At(regs, p + [j]), At(regs, p + [i]))
      {
        NumberedSiblings(regs, w, flat, bus, o, p, if i < j then i else j, if i < j then j else i);
      }
    }
  }

  lemma {:induction false} NumberedChild(regs: RegFile, w: Walk, flat: seq<nat>, bus: Bus, o: nat, p: Path, h: nat, i: nat)
    requires Ascending(flat) && o + Total(w, bus) < |flat|
    requires Numbered(regs, w, flat, bus, o, p, |bus.fns|)
    requires flat[o + Total(w, bus)] <= h
    requires i < |bus.fns| && bus.fns[i].Bridge?
    ensures var r := At(regs, p + [i]);
            && flat[o] < r.secondary <= r.subordinate <= h
            && Nested(regs, bus.fns[i].below, p + [i], r.secondary, r.subordinate)
    decreases bus, 0
  {
    var next := o + Consumed(w, bus, i) + 1;
    DirectBridge(regs, w, flat, bus, o, p, i);
    NthOrder(flat, o, next);
    NthOrder(flat, next, o + Consumed(w, bus, i + 1));
    NthOrder(flat, o + Consumed(w, bus, i + 1), o + Total(w, bus));
    NthOrder(flat, next + Total(w, bus.fns[i].below), o + Consumed(w, bus, i + 1));
    NumberedBelow(regs, w, flat, bus, o, p, i);
    NumberedIsNested(regs, w, flat, bus.fns[i].below, next, p + [i], At(regs, p + [i]).subordinate);
  }

  lemma NumberedSiblings(regs: RegFile, w: Walk, flat: seq<nat>, bus: Bus, o: nat, p: Path, i: nat, j: nat)
    requires Ascending(flat) && o + Total(w, bus) < |flat|
    requires Numbered(regs, w, flat, bus, o, p, |bus.fns|)
    requires i < j < |bus.fns| && bus.fns[i].Bridge? && bus.fns[j].Bridge?
    ensures At(regs, p + [i]).secondary <= At(regs, p + [i]).subordinate < At(regs, p + [j]).secondary
  {
    DirectBridge(regs, w, flat, bus, o, p, i);
    DirectBridge(regs, w, flat, bus, o, p, j);
    ConsumedGrows(w, bus, i + 1, j);
    NthOrder(flat, o + Consumed(w, bus, i) + 1, o + Consumed(w, bus, i + 1));
    NthOrder(flat, o + Consumed(w, bus, i + 1), o + Consumed(w, bus, j) + 1);
  }

  /** The registers of a bridge directly on the bus at p, spelled out. */
  lemma DirectBridge(regs: RegFile, w: Walk, flat: seq<nat>, bus: Bus, o: nat, p: Path, i: nat)
    requires Numbered(regs, w, flat, bus, o, p, |bus.fns|)
    requires i < |bus.fns| && bus.fns[i].Bridge?
    ensures var r := At(regs, p + [i]);
            && r.primary == Nth(flat, o)
            && r.secondary == Nth(flat, o + Consumed(w, bus, i) + 1)
            && r.subordinate == Nth(flat, o + Consumed(w, bus, i + 1))
    ensures Consumed(w, bus, i) + 1 + Total(w, bus.fns[i].below) <= Consumed(w, bus, i + 1) <= Total(w, bus)
  {
    assert IsBridge(bus, p + [i], |p|);
    assert NumberedAs(At(regs, p + [i]), w, flat, bus, o, p + [i], |p|);
    ConsumedGrows(w, bus, i + 1, |bus.fns|);
    assert Demand(w, bus, i) == 1 + Total(w, bus.fns[i].below) + Padding(w, bus.fns[i]);
  }

  /** The part of a numbering below one bridge is a numbering of its own. */
  lemma NumberedBelow(regs: RegFile, w: Walk, flat: seq<nat>, bus: Bus, o: nat, p: Path, i: nat)
    requires Numbered(regs, w, flat, bus, o, p, |bus.fns|)
    requires i < |bus.fns| && bus.fns[i].Bridge?
    ensures Numbered(regs, w, flat, bus.fns[i].below, o + Consumed(w, bus, i) + 1, p + [i], |bus.fns[i].below.fns|)
  {
    var below := bus.fns[i].below;
    forall x | p + [i] < x && IsBridge(below, x, |p| + 1)
      ensures NumberedAs(At(regs, x), w, flat, below, o + Consumed(w, bus, i) + 1, x, |p| + 1)
    {
      assert x[|p|] == i;
      assert IsBridge(bus, x, |p|);
    }
  }
}
