/** What the totals of the plan mean: sums over the bridges of the topology, each named by its path. */
module BusPaths {
  import opened PciTopology
  import opened BusPlan
  import BusScan

  /** The bridge at path x, below the bus at x[..d]. */
  ghost function FunctionAt(bus: Bus, x: Path, d: nat): (f: Function)
    requires IsBridge(bus, x, d)
    ensures f.Bridge?
    decreases bus
  {
    if d + 1 == |x| then bus.fns[x[d]] else FunctionAt(bus.fns[x[d]].below, x, d + 1)
  }

  /** All the bridges below the bus at p that are reached through positions below i. */
  ghost function BridgePaths(bus: Bus, p: Path, i: nat): (s: set<Path>)
    requires i <= |bus.fns|
    ensures forall x :: x in s <==> p < x && IsBridge(bus, x, |p|) && x[|p|] < i
    decreases bus, i
  {
    if i == 0 then {}
    else
      var before := BridgePaths(bus, p, i - 1);
      if !bus.fns[i - 1].Bridge? then before
      else
        var below := bus.fns[i - 1].below;
        BranchPaths(bus, p, i - 1);
        before + {p + [i - 1]} + BridgePaths(below, p + [i - 1], |below.fns|)
  }

  /** A bridge reached through position i is the bridge there, or below it. */
  lemma BranchPaths(bus: Bus, p: Path, i: nat)
    requires i < |bus.fns| && bus.fns[i].Bridge?
    ensures forall x :: p < x && IsBridge(bus, x, |p|) && x[|p|] == i <==>
                        x == p + [i] || (p + [i] < x && IsBridge(bus.fns[i].below, x, |p| + 1))
  {
    var q := p + [i];
    forall x
      ensures p < x && IsBridge(bus, x, |p|) && x[|p|] == i <==>
              x == q || (q < x && IsBridge(bus.fns[i].below, x, |p| + 1))
    {
      if p < x && IsBridge(bus, x, |p|) && x[|p|] == i {
        assert q <= x;
        assert |x| == |q| ==> x == q;
      }
    }
  }

  /** The sum of a weight over a set of bridges. */
  ghost function SumOver(bus: Bus, d: nat, weight: Function -> nat, s: set<Path>): nat
    requires forall x :: x in s ==> IsBridge(bus, x, d)
  {
    if s == {} then 0
    else
      var x :| x in s;
      weight(FunctionAt(bus, x, d)) + SumOver(bus, d, weight, s - {x})
  }

  lemma {:induction false} SumWithout(bus: Bus, d: nat, weight: Function -> nat, s: set<Path>, y: Path)
    requires forall x :: x in s ==> IsBridge(bus, x, d)
    requires y in s
    ensures SumOver(bus, d, weight, s) == weight(FunctionAt(bus, y, d)) + SumOver(bus, d, weight, s - {y})
    decreases |s|
  {
    hide IsBridge, FunctionAt;
    var x :| x in s && SumOver(bus, d, weight, s) == weight(FunctionAt(bus, x, d)) + SumOver(bus, d, weight, s - {x});
    if x != y {
      SumWithout(bus, d, weight, s - {x}, y);
      assert s - {x} - {y} == s - {y} - {x};
      SumWithout(bus, d, weight, s - {y}, x);
    }
  }

  lemma {:induction false} SumUnion(bus: Bus, d: nat, weight: Function -> nat, s: set<Path>, t: set<Path>)
    requires forall x :: x in s + t ==> IsBridge(bus, x, d)
    requires s !! t
    ensures SumOver(bus, d, weight, s + t) == SumOver(bus, d, weight, s) + SumOver(bus, d, weight, t)
    decreases |s|
  {
    hide IsBridge, FunctionAt;
    if s == {} {
      assert s + t == t;
    } else {
      var x :| x in s;
      SumWithout(bus, d, weight, s + t, x);
      SumWithout(bus, d, weight, s, x);
      assert s + t - {x} == (s - {x}) + t;
      SumUnion(bus, d, weight, s - {x}, t);
    }
  }

  /** Seen from the bus below position i, the sum over bridges there is the same. */
  lemma {:induction false} SumBelowSame(bus: Bus, d: nat, weight: Function -> nat, s: set<Path>, i: nat)
    requires i < |bus.fns| && bus.fns[i].Bridge?
    requires forall x :: x in s ==> d + 1 < |x| && x[d] == i && IsBridge(bus.fns[i].below, x, d + 1)
    ensures forall x :: x in s ==> IsBridge(bus, x, d)
    ensures SumOver(bus, d, weight, s) == SumOver(bus.fns[i].below, d + 1, weight, s)
    decreases |s|
  {
    if s != {} {
      var x :| x in s;
      SumWithout(bus, d, weight, s, x);
      SumWithout(bus.fns[i].below, d + 1, weight, s, x);
      SumBelowSame(bus, d, weight, s - {x}, i);
    }
  }

  /** Where weights are zero nothing is added. */
  lemma {:induction false} SumOfNothing(bus: Bus, d: nat, weight: Function -> nat, s: set<Path>)
    requires forall x :: x in s ==> IsBridge(bus, x, d) && weight(FunctionAt(bus, x, d)) == 0
    ensures SumOver(bus, d, weight, s) == 0
    decreases |s|
  {
    hide IsBridge, FunctionAt;
    if s != {} {
      var x :| x in s;
      SumWithout(bus, d, weight, s, x);
      SumOfNothing(bus, d, weight, s - {x});
    }
  }

  /** The same sum, position by position. */
  ghost function SumTo(bus: Bus, weight: Function -> nat, i: nat): nat
    requires i <= |bus.fns|
    decreases bus, i
  {
    if i == 0 then 0
    else SumTo(bus, weight, i - 1) +
         if bus.fns[i - 1].Bridge? then
           weight(bus.fns[i - 1]) + SumTo(bus.fns[i - 1].below, weight, |bus.fns[i - 1].below.fns|)
         else 0
  }

  /** One more position adds the bridge there and all the bridges below it. */
  lemma SumOverStep(bus: Bus, weight: Function -> nat, p: Path, i: nat)
    requires i < |bus.fns| && bus.fns[i].Bridge?
    ensures var below := bus.fns[i].below;
            SumOver(bus, |p|, weight, BridgePaths(bus, p, i + 1)) ==
            SumOver(bus, |p|, weight, BridgePaths(bus, p, i)) + weight(bus.fns[i]) +
            SumOver(below, |p| + 1, weight, BridgePaths(below, p + [i], |below.fns|))
  {
    hide SumOver;
    var q := p + [i];
    var below := bus.fns[i].below;
    var before, under := BridgePaths(bus, p, i), BridgePaths(below, q, |below.fns|);
    assert forall x :: x in under ==> q < x && x[|p|] == i;
    SumBelowSame(bus, |p|, weight, under, i);
    assert IsBridge(bus, q, |p|) && FunctionAt(bus, q, |p|) == bus.fns[i];
    SumOfOne(bus, |p|, weight, q);
    SumsOfThree(bus, |p|, weight, before, {q}, under);
  }

  lemma SumOfOne(bus: Bus, d: nat, weight: Function -> nat, x: Path)
    requires IsBridge(bus, x, d)
    ensures SumOver(bus, d, weight, {x}) == weight(FunctionAt(bus, x, d))
  {
    SumWithout(bus, d, weight, {x}, x);
    assert {x} - {x} == {};
  }

  lemma SumsOfThree(bus: Bus, d: nat, weight: Function -> nat, s: set<Path>, t: set<Path>, u: set<Path>)
    requires forall x :: x in s + t + u ==> IsBridge(bus, x, d)
    requires s !! t && s + t !! u
    ensures SumOver(bus, d, weight, s + t + u) ==
            SumOver(bus, d, weight, s) + SumOver(bus, d, weight, t) + SumOver(bus, d, weight, u)
  {
    hide IsBridge, SumOver;
    SumUnion(bus, d, weight, s, t);
    SumUnion(bus, d, weight, s + t, u);
  }

  lemma {:induction false} SumIsOverPaths(bus: Bus, weight: Function -> nat, p: Path, i: nat)
    requires i <= |bus.fns|
    ensures SumTo(bus, weight, i) == SumOver(bus, |p|, weight, BridgePaths(bus, p, i))
    decreases bus, i
  {
    if i > 0 {
      SumIsOverPaths(bus, weight, p, i - 1);
      if bus.fns[i - 1].Bridge? {
        SumOverStep(bus, weight, p, i - 1);
        SumIsOverPaths(bus.fns[i - 1].below, weight, p + [i - 1], |bus.fns[i - 1].below.fns|);
      }
    }
  }

  // ------------------------------------------------- the totals over all paths

  /** The buses a bridge's hot-plug support asks for, wherever they are to be set aside. */
  function Wanted(f: Function): nat {
    if f.Bridge? && (f.hotPlug.PadBelow? || f.hotPlug.PadAtRoot?) then f.hotPlug.range else 0
  }

  function WantedAtRoot(f: Function): nat {
    if f.Bridge? && f.hotPlug.PadAtRoot? then f.hotPlug.range else 0
  }

  function One(f: Function): nat {
    1
  }

  /** The buses reserved on the bus directly below a bridge. */
  function SlotsBelow(f: Function): nat {
    if f.Bridge? then ReservedOnBus(f.below, |f.below.fns| / FUNCTIONS) else 0
  }

  ghost function AllBridges(root: Bus): (s: set<Path>)
    ensures forall x :: x in s <==> IsBridge(root, x, 0)
  {
    assert forall x: Path :: 0 < |x| ==> [] < x;
    BridgePaths(root, [], |root.fns|)
  }

  lemma {:induction false} SumSame(bus: Bus, d: nat, weight: Function -> nat, weight': Function -> nat, s: set<Path>)
    requires forall x :: x in s ==> IsBridge(bus, x, d)
    requires forall x :: x in s ==> weight(FunctionAt(bus, x, d)) == weight'(FunctionAt(bus, x, d))
    ensures SumOver(bus, d, weight, s) == SumOver(bus, d, weight', s)
    decreases |s|
  {
    hide IsBridge, FunctionAt;
    if s != {} {
      var x :| x in s;
      SumWithout(bus, d, weight, s, x);
      SumWithout(bus, d, weight', s, x);
      SumSame(bus, d, weight, weight', s - {x});
    }
  }

  /** Leaving out bridges that add nothing leaves the sum as it is, whatever the other weight gives them. */
  lemma SumOfThose(bus: Bus, d: nat, weight: Function -> nat, weight': Function -> nat, s: set<Path>, t: set<Path>)
    requires forall x :: x in s ==> IsBridge(bus, x, d)
    requires t <= s
    requires forall x :: x in t ==> weight(FunctionAt(bus, x, d)) == weight'(FunctionAt(bus, x, d))
    requires forall x :: x in s && x !in t ==> weight(FunctionAt(bus, x, d)) == 0
    ensures SumOver(bus, d, weight, s) == SumOver(bus, d, weight', t)
  {
    hide IsBridge, FunctionAt, SumOver;
    assert s == t + (s - t);
    SumUnion(bus, d, weight, t, s - t);
    SumOfNothing(bus, d, weight, s - t);
    SumSame(bus, d, weight, weight', t);
  }

  lemma {:induction false} WalkSums(bus: Bus, i: nat)
    requires i <= |bus.fns|
    ensures BusScan.RootPaddingTo(bus, i) == SumTo(bus, WantedAtRoot, i)
    ensures PaddingTo(bus, i) == SumTo(bus, PaddingAsked, i)
    ensures BridgesTo(bus, i) == SumTo(bus, One, i)
    ensures ReservedBelow(bus, i) == SumTo(bus, SlotsBelow, i)
    decreases bus, i
  {
    if i > 0 {
      WalkSums(bus, i - 1);
      if bus.fns[i - 1].Bridge? {
        WalkSums(bus.fns[i - 1].below, |bus.fns[i - 1].below.fns|);
      }
    }
  }

  /** The bridges whose padding is to be set aside at the root bridge. */
  ghost function PaddedAtRoot(root: Bus): (s: set<Path>)
    ensures forall x :: x in s <==> IsBridge(root, x, 0) && FunctionAt(root, x, 0).hotPlug.PadAtRoot?
  {
    set x | x in AllBridges(root) && FunctionAt(root, x, 0).hotPlug.PadAtRoot?
  }

  /** What is set aside at the root bridge is what the bridges padded there ask for, and nothing else. */
  lemma RootPaddingIsSum(root: Bus)
    ensures BusScan.RootPaddingTo(root, |root.fns|) == SumOver(root, 0, Wanted, PaddedAtRoot(root))
    ensures PaddedAtRoot(root) == {} ==> BusScan.RootPaddingTo(root, |root.fns|) == 0
  {
    WalkSums(root, |root.fns|);
    AllIsEveryPosition(root);
    SumIsOverPaths(root, WantedAtRoot, [], |root.fns|);
    SumOfThose(root, 0, WantedAtRoot, Wanted, AllBridges(root), PaddedAtRoot(root));
  }

  /** The bridges whose padding is to be kept below them. */
  ghost function PaddedBelow(root: Bus): (s: set<Path>)
    ensures forall x :: x in s <==> IsBridge(root, x, 0) && FunctionAt(root, x, 0).hotPlug.PadBelow?
  {
    set x | x in AllBridges(root) && FunctionAt(root, x, 0).hotPlug.PadBelow?
  }

  /** Of the buses asked for, each bridge is one; the rest are padding below bridges, and reservations on each bus. */
  lemma AskedIsSum(root: Bus)
    ensures Asked(root) == |AllBridges(root)| + SumOver(root, 0, Wanted, PaddedBelow(root)) +
            ReservedOnBus(root, |root.fns| / FUNCTIONS) + SumOver(root, 0, SlotsBelow, AllBridges(root))
  {
    hide IsBridge, FunctionAt, SumOver, SumTo;
    var all := AllBridges(root);
    WalkSums(root, |root.fns|);
    AllIsEveryPosition(root);
    SumIsOverPaths(root, One, [], |root.fns|);
    SumIsOverPaths(root, PaddingAsked, [], |root.fns|);
    SumIsOverPaths(root, SlotsBelow, [], |root.fns|);
    SumOfOnes(root, 0, all);
    SumOfThose(root, 0, PaddingAsked, Wanted, all, PaddedBelow(root));
  }

  lemma AllIsEveryPosition(root: Bus)
    ensures AllBridges(root) == BridgePaths(root, [], |root.fns|)
  {
  }

  lemma {:induction false} SumOfOnes(bus: Bus, d: nat, s: set<Path>)
    requires forall x :: x in s ==> IsBridge(bus, x, d)
    ensures SumOver(bus, d, One, s) == |s|
    decreases |s|
  {
    hide IsBridge, FunctionAt;
    if s != {} {
      var x :| x in s;
      SumWithout(bus, d, One, s, x);
      SumOfOnes(bus, d, s - {x});
    }
  }

  /** The reservation of a slot is the least that is enough for every endpoint of it. */
  lemma {:induction false} LargestIsLeast(bus: Bus, lo: nat, hi: nat)
    requires lo <= hi <= |bus.fns|
    ensures forall j :: lo <= j < hi && bus.fns[j].Endpoint? ==> bus.fns[j].reserved <= LargestReservation(bus, lo, hi)
    ensures || LargestReservation(bus, lo, hi) == 0
            || exists j :: lo <= j < hi && bus.fns[j].Endpoint? && bus.fns[j].reserved == LargestReservation(bus, lo, hi)
  {
    if lo < hi {
      LargestIsLeast(bus, lo, hi - 1);
    }
  }

  /** Without SR-IOV and hot-plug the numbering has a bus for each bridge. */
  lemma {:induction false} AssignCounts(bus: Bus, i: nat)
    requires i <= |bus.fns|
    ensures Consumed(Assign, bus, i) == BridgesTo(bus, i)
    decreases bus, i
  {
    if i > 0 {
      AssignCounts(bus, i - 1);
      if bus.fns[i - 1].Bridge? {
        AssignCounts(bus.fns[i - 1].below, |bus.fns[i - 1].below.fns|);
      }
    }
  }

  // ------------------------------------------------------- bridge by bridge

  /** The bus a bridge is on. */
  ghost function BusOf(bus: Bus, x: Path, d: nat): (holder: Bus)
    requires IsBridge(bus, x, d)
    ensures x[|x| - 1] < |holder.fns| && holder.fns[x[|x| - 1]] == FunctionAt(bus, x, d)
    decreases bus
  {
    if d + 1 == |x| then bus else BusOf(bus.fns[x[d]].below, x, d + 1)
  }

  /**
    The bus below a bridge comes right after the buses taken by what precedes it on its own bus; the bridge then takes
    in all the buses below it, and the padding it keeps.
  */
  lemma {:induction false} OrdLocal(w: Walk, bus: Bus, o: nat, x: Path, d: nat)
    requires IsBridge(bus, x, d)
    ensures SecondaryOrd(w, bus, o, x, d) ==
            PrimaryOrd(w, bus, o, x, d) + Consumed(w, BusOf(bus, x, d), x[|x| - 1]) + 1
    ensures SubordinateOrd(w, bus, o, x, d) ==
            SecondaryOrd(w, bus, o, x, d) + Total(w, FunctionAt(bus, x, d).below) + Padding(w, FunctionAt(bus, x, d))
    ensures |x| == d + 1 ==> PrimaryOrd(w, bus, o, x, d) == o
    decreases bus
  {
    var k := o + Consumed(w, bus, x[d]);
    assert Consumed(w, bus, x[d] + 1) == Consumed(w, bus, x[d]) + Demand(w, bus, x[d]);
    if d + 1 < |x| {
      OrdLocal(w, bus.fns[x[d]].below, k + 1, x, d + 1);
    }
  }

  /** A bridge whose padding cannot be had, which the scan comes to with the numbers it has. */
  ghost predicate FaultInReach(bus: Bus, o: nat, x: Path, d: nat, len: nat) {
    && IsBridge(bus, x, d)
    && FunctionAt(bus, x, d).hotPlug.PaddingError?
    && SecondaryOrd(Scan, bus, o, x, d) <= len
  }

  ghost predicate FaultBefore(bus: Bus, o: nat, p: Path, i: nat, len: nat) {
    exists x :: p < x && FaultInReach(bus, o, x, |p|, len) && x[|p|] < i
  }

  /** A fault before position i is one before position i - 1, or at it, or below it. */
  lemma FaultStep(bus: Bus, o: nat, p: Path, i: nat, len: nat)
    requires i < |bus.fns|
    ensures FaultBefore(bus, o, p, i + 1, len) <==>
              || FaultBefore(bus, o, p, i, len)
              || (bus.fns[i].Bridge? && var k := o + Consumed(Scan, bus, i);
                  || (bus.fns[i].hotPlug.PaddingError? && k < len)
                  || FaultBefore(bus.fns[i].below, k + 1, p + [i], |bus.fns[i].below.fns|, len))
  {
    var q := p + [i];
    var k := o + Consumed(Scan, bus, i);
    if FaultBefore(bus, o, p, i + 1, len) && !FaultBefore(bus, o, p, i, len) {
      var x :| p < x && FaultInReach(bus, o, x, |p|, len) && x[|p|] < i + 1;
      assert x[|p|] == i && q <= x;
      if |x| > |q| {
        assert FaultInReach(bus.fns[i].below, k + 1, x, |q|, len);
      }
    }
    if FaultBefore(bus, o, p, i, len) {
      var x :| p < x && FaultInReach(bus, o, x, |p|, len) && x[|p|] < i;
      assert x[|p|] < i + 1;
    }
    if bus.fns[i].Bridge? {
      if bus.fns[i].hotPlug.PaddingError? && k < len {
        assert p < q && FaultInReach(bus, o, q, |p|, len) && q[|p|] < i + 1;
      }
      var below := bus.fns[i].below;
      if FaultBefore(below, k + 1, q, |below.fns|, len) {
        var x :| q < x && FaultInReach(below, k + 1, x, |q|, len) && x[|q|] < |below.fns|;
        assert x[|p|] == i;
        assert p < x && FaultInReach(bus, o, x, |p|, len);
      }
    }
  }

  /** What lies beyond the numbers there are is not come to. */
  lemma NoFaultBeyond(bus: Bus, o: nat, p: Path, i: nat, len: nat)
    requires len <= o
    ensures !FaultBefore(bus, o, p, i, len)
  {
    forall x | p < x && IsBridge(bus, x, |p|)
      ensures !FaultInReach(bus, o, x, |p|, len)
    {
      OrdBounds(Scan, bus, o, x, |p|);
    }
  }

  /** A scan reports a fault exactly if there are numbers enough to come to a bridge whose padding cannot be had. */
  lemma {:induction false} FaultsExactly(bus: Bus, o: nat, p: Path, i: nat, len: nat)
    requires i <= |bus.fns| && o < len
    ensures BusScan.FirstStop(bus, o, i, len) == BusScan.Faults <==> FaultBefore(bus, o, p, i, len)
    decreases bus, i
  {
    if i > 0 {
      FaultsExactly(bus, o, p, i - 1, len);
      FaultStep(bus, o, p, i - 1, len);
      BusScan.GoesExactly(bus, o, i - 1, len);
      if bus.fns[i - 1].Bridge? {
        var k := o + Consumed(Scan, bus, i - 1);
        var below := bus.fns[i - 1].below;
        if k + 1 < len {
          FaultsExactly(below, k + 1, p + [i - 1], |below.fns|, len);
        } else {
          NoFaultBeyond(below, k + 1, p + [i - 1], |below.fns|, len);
        }
      }
    }
  }

  /** The plan of a topology is faulty exactly if there is a bridge whose padding cannot be had. */
  lemma FaultyIsThere(root: Bus)
    ensures BusScan.Faulty(root) <==> exists x :: IsBridge(root, x, 0) && FunctionAt(root, x, 0).hotPlug.PaddingError?
  {
    var len := Total(Scan, root) + 1;
    BusScan.GoesExactly(root, 0, |root.fns|, len);
    FaultsExactly(root, 0, [], |root.fns|, len);
    forall x | IsBridge(root, x, 0) && FunctionAt(root, x, 0).hotPlug.PaddingError?
      ensures FaultBefore(root, 0, [], |root.fns|, len)
    {
      OrdBounds(Scan, root, 0, x, 0);
      assert [] < x && FaultInReach(root, 0, x, 0, len);
    }
    if FaultBefore(root, 0, [], |root.fns|, len) {
      var x: Path :| [] < x && FaultInReach(root, 0, x, 0, len) && x[0] < |root.fns|;
      assert IsBridge(root, x, 0) && FunctionAt(root, x, 0).hotPlug.PaddingError?;
    }
  }
}
