/** What both numbering walks keep, and one step of it: a bridge opened, the bus below it walked, the bridge closed. */
module BusWalk {
  import opened PciTopology
  import opened ConfigSpace
  import opened BusPlan
  import opened BusNumbering

  /** What holds whenever a walk of the bus at p has handled the positions below i. */
  ghost predicate WalkInv(w: Walk, fabric: ConfigFabric, flat: seq<nat>, o: nat, p: Path, bus: Bus, i: nat)
    reads fabric
  {
    && o < |flat|
    && fabric.Faces(p, bus, flat[o], MAX_BUS)
    && i <= |bus.fns|
    && Numbered(fabric.regs, w, flat, bus, o, p, i)
    && ClearedFrom(fabric.regs, bus, p, i)
  }

  /** The siblings of bridge i lie apart from the interval it opens: the handled ones below it, the others cleared. */
  lemma SiblingsApart(w: Walk, regs: RegFile, flat: seq<nat>, o: nat, p: Path, bus: Bus, i: nat, k: nat, j: nat, r: BusRegs)
    requires i < |bus.fns| && k == o + Consumed(w, bus, i)
    requires Ascending(flat) && k + 1 < |flat|
    requires Numbered(regs, w, flat, bus, o, p, i) && ClearedFrom(regs, bus, p, i)
    requires j < |bus.fns| && bus.fns[j].Bridge? && j != i
    requires r.secondary == flat[k + 1]
    ensures Apart(At(regs, p + [j]), r)
  {
    assert IsBridge(bus, p + [j], |p|);
    if j < i {
      assert NumberedAs(At(regs, p + [j]), w, flat, bus, o, p + [j], |p|);
      ConsumedGrows(w, bus, j + 1, i);
      NthOrder(flat, o + Consumed(w, bus, j) + 1, o + Consumed(w, bus, j + 1));
      NthOrder(flat, o + Consumed(w, bus, j + 1), k + 1);
    } else {
      NthOrder(flat, o, k + 1);
    }
  }

  /** The state in which the bus below bridge i is walked: numbered, open to bus 255, everything below it cleared. */
  lemma ChildReady(w: Walk, root: Bus, rootNumber: Byte, regs: RegFile, regs': RegFile, flat: seq<nat>, o: nat, p: Path,
                   bus: Bus, i: nat, k: nat)
    requires i < |bus.fns| && bus.fns[i].Bridge?
    requires Ascending(flat) && k + 1 < |flat| && k == o + Consumed(w, bus, i)
    requires Reaches(root, rootNumber, regs, p, bus, flat[o], MAX_BUS)
    requires Numbered(regs, w, flat, bus, o, p, i) && ClearedFrom(regs, bus, p, i)
    requires At(regs', p + [i]).secondary == flat[k + 1] && At(regs', p + [i]).subordinate == MAX_BUS
    requires forall x {:trigger At(regs', x)} :: x != p + [i] ==> At(regs', x) == At(regs, x)
    ensures Reaches(root, rootNumber, regs', p, bus, flat[o], MAX_BUS)
    ensures Reaches(root, rootNumber, regs', p + [i], bus.fns[i].below, flat[k + 1], MAX_BUS)
    ensures Numbered(regs', w, flat, bus.fns[i].below, k + 1, p + [i], 0)
    ensures ClearedFrom(regs', bus.fns[i].below, p + [i], 0)
  {
    PathFrame(root, regs, regs', p, 0, rootNumber, MAX_BUS, bus, flat[o], MAX_BUS);
    NthOrder(flat, o, k + 1);
    forall j: nat | j < |bus.fns| && bus.fns[j].Bridge? && j != i
      ensures Apart(At(regs', p + [j]), At(regs', p + [i]))
    {
      SiblingsApart(w, regs, flat, o, p, bus, i, k, j, At(regs', p + [i]));
      assert (p + [j])[|p|] != (p + [i])[|p|];
    }
    PathExtend(root, regs', p, 0, rootNumber, MAX_BUS, bus, flat[o], MAX_BUS, i);
    forall x | p + [i] < x && IsBridge(bus.fns[i].below, x, |p| + 1)
      ensures Cleared(At(regs', x))
    {
      assert x[|p|] == i;
      assert IsBridge(bus, x, |p|);
    }
  }

  /** After the scan below bridge i and the final write of its subordinate bus, bridge i counts as handled. */
  lemma ChildDone(w: Walk, regs: RegFile, regs': RegFile, flat: seq<nat>, o: nat, p: Path, bus: Bus, i: nat)
    requires i < |bus.fns| && bus.fns[i].Bridge?
    requires Numbered(regs, w, flat, bus, o, p, i) && ClearedFrom(regs, bus, p, i)
    requires OnlyBelow(regs, regs', p + [i])
    requires Numbered(regs', w, flat, bus.fns[i].below, o + Consumed(w, bus, i) + 1, p + [i],
                      |bus.fns[i].below.fns|)
    requires var r := At(regs', p + [i]);
             && r.primary == Nth(flat, o)
             && r.secondary == Nth(flat, o + Consumed(w, bus, i) + 1)
             && r.subordinate == Nth(flat, o + Consumed(w, bus, i + 1))
    ensures Numbered(regs', w, flat, bus, o, p, i + 1)
    ensures ClearedFrom(regs', bus, p, i + 1)
  {
    forall x | p < x && IsBridge(bus, x, |p|)
      ensures x[|p|] != i ==> At(regs', x) == At(regs, x)
      ensures x[|p|] == i ==> NumberedAs(At(regs', x), w, flat, bus, o, x, |p|)
    {
      if x[|p|] != i {
        assert !(p + [i] <= x);
      } else {
        assert p + [i] <= x;
        if |x| == |p| + 1 {
          assert x == p + [i];
        } else {
          assert IsBridge(bus.fns[i].below, x, |p| + 1);
        }
      }
    }
  }

  /** The register files differ at most at x and below it. */
  ghost predicate OnlyBelow(regs: RegFile, regs': RegFile, x: Path) {
    forall y {:trigger At(regs', y)} :: !(x <= y) ==> At(regs', y) == At(regs, y)
  }

  /** A position without a bridge changes nothing below the bus. */
  lemma NoBridgeHere(w: Walk, regs: RegFile, flat: seq<nat>, o: nat, p: Path, bus: Bus, i: nat)
    requires i < |bus.fns| && !bus.fns[i].Bridge?
    requires Numbered(regs, w, flat, bus, o, p, i) && ClearedFrom(regs, bus, p, i)
    ensures Numbered(regs, w, flat, bus, o, p, i + 1) && ClearedFrom(regs, bus, p, i + 1)
  {
  }

  /** A write to one bridge of the bus at p leaves the way to p alone. */
  lemma WriteKeepsPath(root: Bus, rootNumber: Byte, regs: RegFile, r: BusRegs, p: Path, bus: Bus, s: nat, h: nat, i: nat)
    requires Reaches(root, rootNumber, regs, p, bus, s, h)
    ensures Reaches(root, rootNumber, regs[p + [i] := r], p, bus, s, h)
  {
    PathFrame(root, regs, regs[p + [i] := r], p, 0, rootNumber, MAX_BUS, bus, s, h);
  }

  /** Give the bridge at position i of bus s its bus numbers and open it to every bus number up to 255. */
  method OpenBridge(fabric: ConfigFabric, s: Byte, i: nat, second: Byte, ghost p: Path, ghost bus: Bus)
    requires fabric.Faces(p, bus, s, MAX_BUS)
    requires i < |bus.fns| && bus.fns[i].Bridge?
    modifies fabric
    ensures fabric.Routed(old(fabric.trace))
    ensures fabric.regs == old(fabric.regs)[p + [i] := BusRegs(s, second, MAX_BUS, At(old(fabric.regs), p + [i]).latency)]
  {
    fabric.WriteBusNumbers(s, i, second * 0x100 + s, p, bus, MAX_BUS);
    ghost var trace1 := fabric.trace;
    WriteKeepsPath(fabric.root, fabric.rootNumber, old(fabric.regs), fabric.regs[p + [i]], p, bus, s, MAX_BUS, i);
    fabric.WriteSubordinate(s, i, 0xFF, p, bus, MAX_BUS);
    RoutedTrans(fabric.root, fabric.rootNumber, old(fabric.trace), trace1, fabric.trace);
  }

  /**
    From the registers before a bridge was opened (regs0) over those after (regs1) and those after the walk below it
    (regs2) to the registers with its final subordinate bus: the walk may go on behind the bridge.
  */
  lemma BridgeClosed(w: Walk, root: Bus, rootNumber: Byte, regs0: RegFile, regs1: RegFile, regs2: RegFile,
                     flat: seq<nat>, o: nat, p: Path, bus: Bus, i: nat, s: Byte, second: Byte, sub: Byte)
    requires i < |bus.fns| && bus.fns[i].Bridge?
    requires Reaches(root, rootNumber, regs0, p, bus, s, MAX_BUS)
    requires Numbered(regs0, w, flat, bus, o, p, i) && ClearedFrom(regs0, bus, p, i)
    requires regs1 == regs0[p + [i] := BusRegs(s, second, MAX_BUS, At(regs0, p + [i]).latency)]
    requires SameOutside(regs1, regs2, p + [i]) && SameLatency(regs1, regs2)
    requires var k := o + Consumed(w, bus, i);
             Numbered(regs2, w, flat, bus.fns[i].below, k + 1, p + [i], |bus.fns[i].below.fns|)
    requires s == Nth(flat, o) && second == Nth(flat, o + Consumed(w, bus, i) + 1)
    requires sub == Nth(flat, o + Consumed(w, bus, i + 1))
    ensures Reaches(root, rootNumber, regs2, p, bus, s, MAX_BUS)
    ensures var regs3 := regs2[p + [i] := At(regs2, p + [i]).(subordinate := sub)];
            && SameOutside(regs0, regs3, p) && SameLatency(regs0, regs3)
            && Reaches(root, rootNumber, regs3, p, bus, s, MAX_BUS)
            && Numbered(regs3, w, flat, bus, o, p, i + 1) && ClearedFrom(regs3, bus, p, i + 1)
  {
    var q := p + [i];
    var regs3 := regs2[q := At(regs2, q).(subordinate := sub)];
    assert At(regs1, q) == BusRegs(s, second, MAX_BUS, At(regs0, q).latency);
    assert At(regs2, q) == At(regs1, q);
    assert forall x {:trigger At(regs3, x)} :: x != q ==> At(regs3, x) == At(regs2, x);
    assert forall x {:trigger At(regs1, x)} :: x != q ==> At(regs1, x) == At(regs0, x);
    assert OnlyBelow(regs0, regs3, q);
    SmallerFrame(regs0, regs2, p, i);
    SmallerFrame(regs0, regs3, p, i);
    PathFrame(root, regs0, regs2, p, 0, rootNumber, MAX_BUS, bus, s, MAX_BUS);
    PathFrame(root, regs0, regs3, p, 0, rootNumber, MAX_BUS, bus, s, MAX_BUS);
    NumberedFrame(regs2, regs3, w, flat, bus.fns[i].below, o + Consumed(w, bus, i) + 1, q, |bus.fns[i].below.fns|);
    ChildDone(w, regs0, regs3, flat, o, p, bus, i);
  }

  lemma SmallerFrame(regs: RegFile, regs': RegFile, p: Path, i: nat)
    requires OnlyBelow(regs, regs', p + [i])
    ensures SameOutside(regs, regs', p)
  {
    forall x {:trigger At(regs', x)} | !(p < x)
      ensures At(regs', x) == At(regs, x)
    {
      assert !(p + [i] <= x);
    }
  }

  /** Registers that are not strictly below p do not matter to the numbering below p. */
  lemma NumberedFrame(regs: RegFile, regs': RegFile, w: Walk, flat: seq<nat>, bus: Bus, o: nat, p: Path, i: nat)
    requires Numbered(regs, w, flat, bus, o, p, i)
    requires forall x {:trigger At(regs', x)} :: x != p ==> At(regs', x) == At(regs, x)
    ensures Numbered(regs', w, flat, bus, o, p, i)
  {
    forall x | p < x && IsBridge(bus, x, |p|) && x[|p|] < i
      ensures NumberedAs(At(regs', x), w, flat, bus, o, x, |p|)
    {
      assert At(regs', x) == At(regs, x);
    }
  }

  /** Write the final subordinate bus of the bridge at position i, after the walk below it. */
  method CloseBridge(w: Walk, fabric: ConfigFabric, s: Byte, i: nat, second: Byte, sub: Byte,
                     ghost regs0: RegFile, ghost openRegs: RegFile, ghost flat: seq<nat>, ghost o: nat, ghost p: Path,
                     ghost bus: Bus)
    requires i < |bus.fns| && bus.fns[i].Bridge? && o < |flat|
    requires Reaches(fabric.root, fabric.rootNumber, regs0, p, bus, s, MAX_BUS)
    requires Numbered(regs0, w, flat, bus, o, p, i) && ClearedFrom(regs0, bus, p, i)
    requires openRegs == regs0[p + [i] := BusRegs(s, second, MAX_BUS, At(regs0, p + [i]).latency)]
    requires SameOutside(openRegs, fabric.regs, p + [i]) && SameLatency(openRegs, fabric.regs)
    requires var k := o + Consumed(w, bus, i);
             Numbered(fabric.regs, w, flat, bus.fns[i].below, k + 1, p + [i], |bus.fns[i].below.fns|)
    requires s == flat[o] && second == Nth(flat, o + Consumed(w, bus, i) + 1)
    requires sub == Nth(flat, o + Consumed(w, bus, i + 1))
    modifies fabric
    ensures fabric.Routed(old(fabric.trace))
    ensures WalkInv(w, fabric, flat, o, p, bus, i + 1)
    ensures SameOutside(regs0, fabric.regs, p) && SameLatency(regs0, fabric.regs)
  {
    BridgeClosed(w, fabric.root, fabric.rootNumber, regs0, openRegs, fabric.regs, flat, o, p, bus, i, s, second, sub);
    fabric.WriteSubordinate(s, i, sub, p, bus, MAX_BUS);
  }

  /** Frames compose. */
  lemma SameTrans(regs: RegFile, regs': RegFile, regs'': RegFile, p: Path)
    ensures SameOutside(regs, regs, p) && SameLatency(regs, regs)
    ensures SameOutside(regs, regs', p) && SameOutside(regs', regs'', p) ==> SameOutside(regs, regs'', p)
    ensures SameLatency(regs, regs') && SameLatency(regs', regs'') ==> SameLatency(regs, regs'')
  {
    if SameOutside(regs, regs', p) && SameOutside(regs', regs'', p) {
      forall x {:trigger At(regs'', x)} | !(p < x)
        ensures At(regs'', x) == At(regs, x)
      {
        assert At(regs', x) == At(regs, x);
      }
    }
    if SameLatency(regs, regs') && SameLatency(regs', regs'') {
      forall x {:trigger At(regs'', x)}
        ensures At(regs'', x).latency == At(regs, x).latency
      {
        assert At(regs', x).latency == At(regs, x).latency;
      }
    }
  }

  lemma WellFormedSize(bus: Bus)
    requires WellFormed(bus)
    ensures |bus.fns| == POSITIONS
  {
  }
}
