/** ResetAllPpbBusNumber: clear the bus numbers of all bridges, through the bridges being cleared. */
module BusReset {
  import opened PciTopology
  import opened ConfigSpace
  import opened BusNumbering
  import opened BusWalk
  import BusScan

  /** The bridges below the bus at p that are reached through positions below i are cleared. */
  ghost predicate ClearedTo(regs: RegFile, bus: Bus, p: Path, i: nat) {
    forall x {:trigger IsBridge(bus, x, |p|)} ::
      p < x && IsBridge(bus, x, |p|) && x[|p|] < i ==> Cleared(At(regs, x))
  }

  /** The bridge at position i is cleared with everything below it, or holds an interval within s..h that nests. */
  ghost predicate NestedAt(regs: RegFile, bus: Bus, p: Path, s: nat, h: nat, i: nat)
    requires i < |bus.fns| && bus.fns[i].Bridge?
  {
    var r := At(regs, p + [i]);
    var below := bus.fns[i].below;
    if r.secondary == 0 then Cleared(r) && ClearedFrom(regs, below, p + [i], 0)
    else
      && s < r.secondary <= r.subordinate <= h
      && Nested(regs, below, p + [i], r.secondary, r.subordinate)
  }

  /** The bridges at positions from i on are still as they were, nested and apart from one another. */
  ghost predicate NestedFrom(regs: RegFile, bus: Bus, p: Path, s: nat, h: nat, i: nat) {
    && (forall j: nat {:trigger bus.fns[j]} :: i <= j < |bus.fns| && bus.fns[j].Bridge? ==> NestedAt(regs, bus, p, s, h, j))
    && (forall j: nat, k: nat {:trigger bus.fns[j], bus.fns[k]} ::
          (i <= j < |bus.fns| && bus.fns[j].Bridge? && i <= k < |bus.fns| && bus.fns[k].Bridge? && j != k) ==>
            At(regs, p + [j]).secondary != 0 ==> Apart(At(regs, p + [k]), At(regs, p + [j])))
  }

  /** What holds whenever the reset of the bus at p has handled the positions below i. */
  ghost predicate ResetInv(fabric: ConfigFabric, p: Path, bus: Bus, s: nat, h: nat, i: nat)
    reads fabric
  {
    && fabric.Faces(p, bus, s, h)
    && i <= |bus.fns|
    && ClearedTo(fabric.regs, bus, p, i)
    && NestedFrom(fabric.regs, bus, p, s, h, i)
  }

  lemma ResetStarts(fabric: ConfigFabric, p: Path, bus: Bus, s: nat, h: nat)
    requires fabric.Faces(p, bus, s, h) && Nested(fabric.regs, bus, p, s, h)
    ensures ResetInv(fabric, p, bus, s, h, 0)
  {
  }

  lemma ResetEnds(fabric: ConfigFabric, p: Path, bus: Bus, s: nat, h: nat)
    requires ResetInv(fabric, p, bus, s, h, |bus.fns|)
    ensures ClearedFrom(fabric.regs, bus, p, 0)
  {
  }

  /**
    How far a reset from bus s has come since the registers were regs0. If s is the number of the bus at p, the functions
    before position i are done; if no bus answers to s, nothing has happened and nothing will.
  */
  ghost predicate Resetting(fabric: ConfigFabric, reached: bool, regs0: RegFile, trace0: seq<Access>, p: Path, bus: Bus,
                            s: nat, h: nat, i: nat)
    reads fabric
  {
    if reached then
      && fabric.Routed(trace0)
      && ResetInv(fabric, p, bus, s, h, i)
      && SameOutside(regs0, fabric.regs, p) && SameLatency(regs0, fabric.regs)
    else
      && fabric.regs == regs0
      && Target(fabric.root, fabric.rootNumber, fabric.regs, s) == None
      && UnansweredOver(fabric.root, fabric.rootNumber, trace0, fabric.trace)
  }

  /** The bus below a bridge that still has its interval can be reached and reset. */
  lemma ChildReset(root: Bus, rootNumber: Byte, regs: RegFile, p: Path, bus: Bus, s: nat, h: nat, i: nat)
    requires Reaches(root, rootNumber, regs, p, bus, s, h)
    requires i < |bus.fns| && bus.fns[i].Bridge?
    requires ClearedTo(regs, bus, p, i) && NestedFrom(regs, bus, p, s, h, i)
    requires At(regs, p + [i]).secondary != 0
    ensures var r := At(regs, p + [i]);
            && s < r.secondary
            && Reaches(root, rootNumber, regs, p + [i], bus.fns[i].below, r.secondary, r.subordinate)
            && Nested(regs, bus.fns[i].below, p + [i], r.secondary, r.subordinate)
  {
    var r := At(regs, p + [i]);
    assert NestedAt(regs, bus, p, s, h, i);
    forall j: nat | j < |bus.fns| && bus.fns[j].Bridge? && j != i
      ensures Apart(At(regs, p + [j]), r)
    {
      assert IsBridge(bus, p + [j], |p|);
    }
    PathExtend(root, regs, p, 0, rootNumber, MAX_BUS, bus, s, h, i);
  }

  /** Once the bridge at position i is cleared, at last, with everything below it, the reset may go on behind it. */
  lemma BridgeReset(root: Bus, rootNumber: Byte, regs: RegFile, regs': RegFile, p: Path, bus: Bus, s: nat, h: nat, i: nat)
    requires Reaches(root, rootNumber, regs, p, bus, s, h)
    requires i < |bus.fns| && bus.fns[i].Bridge?
    requires ClearedTo(regs, bus, p, i) && NestedFrom(regs, bus, p, s, h, i)
    requires OnlyBelow(regs, regs', p + [i])
    requires Cleared(At(regs', p + [i])) && ClearedFrom(regs', bus.fns[i].below, p + [i], 0)
    ensures Reaches(root, rootNumber, regs', p, bus, s, h)
    ensures ClearedTo(regs', bus, p, i + 1) && NestedFrom(regs', bus, p, s, h, i + 1)
  {
    SmallerFrame(regs, regs', p, i);
    PathFrame(root, regs, regs', p, 0, rootNumber, MAX_BUS, bus, s, h);
    forall x | p < x && IsBridge(bus, x, |p|) && x[|p|] < i + 1
      ensures Cleared(At(regs', x))
    {
      if x[|p|] < i {
        assert !(p + [i] <= x);
      } else if |x| == |p| + 1 {
        assert x == p + [i];
      } else {
        assert p + [i] < x;
        assert IsBridge(bus.fns[i].below, x, |p| + 1);
      }
    }
    forall j: nat | i + 1 <= j < |bus.fns| && bus.fns[j].Bridge?
      ensures At(regs', p + [j]) == At(regs, p + [j])
      ensures NestedAt(regs', bus, p, s, h, j)
    {
      BranchFrame(regs, regs', bus, p, s, h, i, j);
    }
  }

  /** A change at bridge i or below it leaves the branch of bridge j alone. */
  lemma BranchFrame(regs: RegFile, regs': RegFile, bus: Bus, p: Path, s: nat, h: nat, i: nat, j: nat)
    requires i < j < |bus.fns| && bus.fns[j].Bridge?
    requires OnlyBelow(regs, regs', p + [i])
    requires NestedAt(regs, bus, p, s, h, j)
    ensures At(regs', p + [j]) == At(regs, p + [j])
    ensures NestedAt(regs', bus, p, s, h, j)
  {
    var r := At(regs, p + [j]);
    var below := bus.fns[j].below;
    forall x {:trigger At(regs', x)} | p + [j] <= x
      ensures At(regs', x) == At(regs, x)
    {
      assert x[|p|] == j;
      assert !(p + [i] <= x);
    }
    if r.secondary == 0 {
      forall x | p + [j] < x && IsBridge(below, x, |p| + 1)
        ensures Cleared(At(regs', x))
      {
        assert At(regs', x) == At(regs, x);
      }
    } else {
      NestedFrame(regs, regs', below, p + [j], r.secondary, r.subordinate);
    }
  }

  lemma {:induction false} PassOver(fabric: ConfigFabric, p: Path, bus: Bus, s: nat, h: nat, i: nat, j: nat)
    requires ResetInv(fabric, p, bus, s, h, i)
    requires i <= j <= |bus.fns|
    requires forall k :: i <= k < j ==> !bus.fns[k].Bridge?
    ensures ResetInv(fabric, p, bus, s, h, j)
    decreases j - i
  {
    if i < j {
      PassOver(fabric, p, bus, s, h, i + 1, j);
    }
  }

  /** The body of the inner loop for a bridge: first everything below it, then its own registers. */
  method ResetBridge(fabric: ConfigFabric, s: Byte, i: nat, uninitialised: bool,
                     ghost p: Path, ghost bus: Bus, ghost h: nat)
    requires WellFormed(bus) && i < |bus.fns| && bus.fns[i].Bridge?
    requires h <= MAX_BUS && ResetInv(fabric, p, bus, s, h, i)
    modifies fabric
    ensures fabric.Routed(old(fabric.trace))
    ensures ResetInv(fabric, p, bus, s, h, i + 1)
    ensures SameOutside(old(fabric.regs), fabric.regs, p) && SameLatency(old(fabric.regs), fabric.regs)
    decreases MAX_BUS - s, 0, 0
  {
    hide PathTo, RoutedOver, WellFormed, Nested, NestedFrom, ClearedTo;
    ghost var regs0, trace0 := fabric.regs, fabric.trace;
    ghost var below := bus.fns[i].below;
    BelowWellFormed(bus, i);
    var word := fabric.ReadBusRegister(s, i, p, bus, h);
    ghost var trace1 := fabric.trace;
    RoutedTrans(fabric.root, fabric.rootNumber, trace1, trace1, trace1);
    WordMask(At(regs0, p + [i]));
    var secondary: Byte := word / 0x100 % 0x100;
    assert secondary == At(regs0, p + [i]).secondary;
    SameTrans(regs0, regs0, regs0, p + [i]);
    if secondary != 0 {
      ChildReset(fabric.root, fabric.rootNumber, regs0, p, bus, s, h, i);
      ResetAllPpbBusNumber(fabric, secondary, uninitialised, true, p + [i], below, At(regs0, p + [i]).subordinate);
    } else {
      ZeroBridge(regs0, bus, p, s, h, i);
    }
    ghost var regs1, trace2 := fabric.regs, fabric.trace;
    RoutedTrans(fabric.root, fabric.rootNumber, trace0, trace1, trace2);
    assert OnlyBelow(regs0, regs1, p + [i]);
    SmallerFrame(regs0, regs1, p, i);
    PathFrame(fabric.root, regs0, regs1, p, 0, fabric.rootNumber, MAX_BUS, bus, s, h);
    fabric.WriteBusRegister(s, i, word / 0x100_0000 * 0x100_0000, p, bus, h);
    RoutedTrans(fabric.root, fabric.rootNumber, trace0, trace2, fabric.trace);
    WriteBelow(regs0, regs1, fabric.regs, below, p, i);
    BridgeReset(fabric.root, fabric.rootNumber, regs0, fabric.regs, p, bus, s, h, i);
  }

  lemma BelowWellFormed(bus: Bus, i: nat)
    requires WellFormed(bus) && i < |bus.fns| && bus.fns[i].Bridge?
    ensures WellFormed(bus.fns[i].below)
  {
  }

  /** A bridge without bus numbers has nothing to reset below it. */
  lemma ZeroBridge(regs: RegFile, bus: Bus, p: Path, s: nat, h: nat, i: nat)
    requires i < |bus.fns| && bus.fns[i].Bridge?
    requires NestedFrom(regs, bus, p, s, h, i)
    requires At(regs, p + [i]).secondary == 0
    ensures ClearedFrom(regs, bus.fns[i].below, p + [i], 0)
  {
    assert NestedAt(regs, bus, p, s, h, i);
  }

  /** The final write to bridge i keeps its latency byte and what was cleared below it. */
  lemma WriteBelow(regs0: RegFile, regs1: RegFile, regs2: RegFile, below: Bus, p: Path, i: nat)
    requires SameOutside(regs0, regs1, p + [i]) && SameLatency(regs0, regs1)
    requires ClearedFrom(regs1, below, p + [i], 0)
    requires regs2 == regs1[p + [i] := BusRegs(0, 0, 0, At(regs0, p + [i]).latency)]
    ensures OnlyBelow(regs0, regs2, p + [i]) && SameLatency(regs0, regs2)
    ensures SameOutside(regs0, regs2, p)
    ensures Cleared(At(regs2, p + [i])) && ClearedFrom(regs2, below, p + [i], 0)
  {
    assert forall x {:trigger At(regs2, x)} :: x != p + [i] ==> At(regs2, x) == At(regs1, x);
    assert OnlyBelow(regs0, regs2, p + [i]);
    SmallerFrame(regs0, regs2, p, i);
    forall x {:trigger At(regs2, x)}
      ensures At(regs2, x).latency == At(regs0, x).latency
    {
      assert At(regs1, x).latency == At(regs0, x).latency;
    }
  }

  /** One turn of the inner loop: the function at position i of bus s. */
  method ResetFunction(fabric: ConfigFabric, s: Byte, i: nat, multi0: bool, ghost reached: bool, ghost regs0: RegFile,
                       ghost trace0: seq<Access>, ghost p: Path, ghost bus: Bus, ghost h: nat)
    returns (multi: bool)
    requires reached ==> WellFormed(bus) && i < |bus.fns| && h <= MAX_BUS
    requires Resetting(fabric, reached, regs0, trace0, p, bus, s, h, i)
    modifies fabric
    ensures reached ==> multi == var f := bus.fns[i]; if f.Absent? then multi0 else f.multi
    ensures Resetting(fabric, reached, regs0, trace0, p, bus, s, h, i + 1)
    decreases MAX_BUS - s, 0, 1
  {
    hide PathTo, RoutedOver, UnansweredOver, Target, WellFormed, Nested, NestedFrom, ClearedTo, IsBridge, At, SameOutside,
         SameLatency;
    ghost var trace1, regs1 := fabric.trace, fabric.regs;
    var header := fabric.ReadHeader(s, i, p, bus, h);
    ghost var trace2 := fabric.trace;
    RoutedTrans(fabric.root, fabric.rootNumber, trace0, trace1, trace2);
    multi := if header == NoDevice then multi0 else header.multi;
    if header.BridgeHeader? {
      ResetBridge(fabric, s, i, multi, p, bus, h);
      RoutedTrans(fabric.root, fabric.rootNumber, trace0, trace2, fabric.trace);
      SameTrans(regs0, regs1, fabric.regs, p);
    } else if reached {
      PassOver(fabric, p, bus, s, h, i, i + 1);
    }
  }

  /**
    Clear the bus numbers of every bridge below bus s, whose bridge forwards numbers up to h. Each call goes to a
    larger bus number; every access is routed, since a bridge is cleared only after everything below it; byte 1Bh of
    every bridge keeps its value. From a number no bus answers to, no device is found and nothing is written.
  */
  method ResetAllPpbBusNumber(fabric: ConfigFabric, s: Byte, uninitialised: bool,
                              ghost reached: bool, ghost p: Path, ghost bus: Bus, ghost h: nat)
    requires reached ==> WellFormed(bus) && h <= MAX_BUS && fabric.Faces(p, bus, s, h) && Nested(fabric.regs, bus, p, s, h)
    requires !reached ==> Target(fabric.root, fabric.rootNumber, fabric.regs, s) == None
    modifies fabric
    ensures reached ==>
              && fabric.Routed(old(fabric.trace))
              && ClearedFrom(fabric.regs, bus, p, 0)
              && SameOutside(old(fabric.regs), fabric.regs, p) && SameLatency(old(fabric.regs), fabric.regs)
    ensures !reached ==>
              && fabric.regs == old(fabric.regs)
              && UnansweredOver(fabric.root, fabric.rootNumber, old(fabric.trace), fabric.trace)
    decreases MAX_BUS - s, 1
  {
    hide PathTo, RoutedOver, UnansweredOver, Target, IsBridge, At, Nested, ClearedFrom, Resetting;
    hide SameOutside, SameLatency, WellFormed, ResetInv;
    ghost var regs0, trace0 := fabric.regs, fabric.trace;
    ResettingStarts(fabric, reached, p, bus, s, h);
    if reached {
      WellFormedSize(bus);
    }
    var multi := uninitialised;
    var device := 0;
    while device <= 31
      invariant device <= 32
      invariant Resetting(fabric, reached, regs0, trace0, p, bus, s, h, device * FUNCTIONS)
    {
      var func := 0;
      while func <= 7
        invariant func <= 8
        invariant Resetting(fabric, reached, regs0, trace0, p, bus, s, h, device * FUNCTIONS + func)
      {
        var i := device * FUNCTIONS + func;
        multi := ResetFunction(fabric, s, i, multi, reached, regs0, trace0, p, bus, h);
        if func == 0 && !multi {
          if reached {
            BusScan.SlotSkipped(bus, device);
          }
          SkipSlot(fabric, reached, regs0, trace0, p, bus, s, h, i + 1, i + FUNCTIONS);
          func := 7;
        }
        func := func + 1;
      }
      device := device + 1;
    }
    ResettingEnds(fabric, reached, regs0, trace0, p, bus, s, h);
  }

  lemma ResettingStarts(fabric: ConfigFabric, reached: bool, p: Path, bus: Bus, s: nat, h: nat)
    requires reached ==> fabric.Faces(p, bus, s, h) && Nested(fabric.regs, bus, p, s, h)
    requires !reached ==> Target(fabric.root, fabric.rootNumber, fabric.regs, s) == None
    ensures Resetting(fabric, reached, fabric.regs, fabric.trace, p, bus, s, h, 0)
  {
    hide PathTo, Nested, Target, NestedFrom, ClearedTo;
    RoutedTrans(fabric.root, fabric.rootNumber, fabric.trace, fabric.trace, fabric.trace);
    SameTrans(fabric.regs, fabric.regs, fabric.regs, p);
    if reached {
      ResetStarts(fabric, p, bus, s, h);
    }
  }

  lemma SkipSlot(fabric: ConfigFabric, reached: bool, regs0: RegFile, trace0: seq<Access>, p: Path, bus: Bus, s: nat,
                 h: nat, i: nat, j: nat)
    requires Resetting(fabric, reached, regs0, trace0, p, bus, s, h, i)
    requires reached ==> i <= j <= |bus.fns| && forall k :: i <= k < j ==> !bus.fns[k].Bridge?
    ensures Resetting(fabric, reached, regs0, trace0, p, bus, s, h, j)
  {
    if reached {
      PassOver(fabric, p, bus, s, h, i, j);
    }
  }

  lemma ResettingEnds(fabric: ConfigFabric, reached: bool, regs0: RegFile, trace0: seq<Access>, p: Path, bus: Bus, s: nat,
                      h: nat)
    requires Resetting(fabric, reached, regs0, trace0, p, bus, s, h, POSITIONS)
    requires reached ==> |bus.fns| == POSITIONS
    ensures reached ==>
              && fabric.Routed(trace0)
              && ClearedFrom(fabric.regs, bus, p, 0)
              && SameOutside(regs0, fabric.regs, p) && SameLatency(regs0, fabric.regs)
    ensures !reached ==> fabric.regs == regs0 && UnansweredOver(fabric.root, fabric.rootNumber, trace0, fabric.trace)
  {
    if reached {
      ResetEnds(fabric, p, bus, s, h);
    }
  }
}
