/** PciAssignBusNumber: the numbering walk without padding and reservations, used below an added bridge. */
module BusAssign {
  import opened AcpiDescriptors
  import opened PciTopology
  import opened ConfigSpace
  import opened BusPlan
  import opened BusNumbering
  import opened BusWalk
  import BusNumberRanges
  import BusScan

  /** DeviceError: a bus further down could not be numbered. LostBit: an 8-bit cast dropped a bit. */
  datatype Outcome = Done | NoBuses | DeviceError | LostBit

  ghost predicate Assigned(fabric: ConfigFabric, flat: seq<nat>, o: nat, p: Path, bus: Bus, i: nat, sub: nat)
    reads fabric
  {
    && WalkInv(Assign, fabric, flat, o, p, bus, i)
    && o + Consumed(Assign, bus, i) < |flat|
    && sub == flat[o + Consumed(Assign, bus, i)]
  }

  /** The bridge that cannot be numbered is on this bus: the list ends with the number before its own. */
  ghost predicate ShortHere(bus: Bus, o: nat, i: nat, len: nat)
    requires i <= |bus.fns|
  {
    exists j: nat :: j < i && LastIsBefore(bus, o, j, len)
  }

  ghost predicate LastIsBefore(bus: Bus, o: nat, j: nat, len: nat)
    requires j < |bus.fns|
  {
    bus.fns[j].Bridge? && o + Consumed(Assign, bus, j) + 1 == len
  }

  /**
    The walk stops early only for want of bus numbers; it loses a bit exactly if the last bus number is 255, and
    otherwise reports whether the bridge left without a number is on this bus or further down.
  */
  ghost predicate StoppedBy(outcome: Outcome, flat: seq<nat>, o: nat, bus: Bus, i: nat)
    requires i <= |bus.fns| && flat != []
  {
    && o + Consumed(Assign, bus, i) >= |flat|
    && outcome == if flat[|flat| - 1] >= MAX_BUS then LostBit
                  else if ShortHere(bus, o, i, |flat|) then NoBuses
                  else DeviceError
  }

  /** Nothing before the bridge that takes the walk past the end of the list is short. */
  lemma NotShortBefore(bus: Bus, o: nat, i: nat, len: nat)
    requires i < |bus.fns| && bus.fns[i].Bridge? && o + Consumed(Assign, bus, i) < len
    ensures ShortHere(bus, o, i + 1, len) <==> LastIsBefore(bus, o, i, len)
  {
    forall j: nat | j < i && bus.fns[j].Bridge?
      ensures o + Consumed(Assign, bus, j) + 1 < len
    {
      ConsumedGrows(Assign, bus, j + 1, i);
      assert Demand(Assign, bus, j) >= 1;
    }
  }

  lemma FreshBus(bus: Bus, i: nat)
    requires WellFormed(bus) && i < |bus.fns| && bus.fns[i].Bridge?
    ensures WellFormed(bus.fns[i].below) && Consumed(Assign, bus.fns[i].below, 0) == 0
    ensures Consumed(Assign, bus, i + 1) == Consumed(Assign, bus, i) + 1 + Total(Assign, bus.fns[i].below)
  {
    assert Demand(Assign, bus, i) == 1 + Total(Assign, bus.fns[i].below);
  }

  lemma StopsLater(outcome: Outcome, flat: seq<nat>, o: nat, bus: Bus, i: nat, j: nat)
    requires i <= j <= |bus.fns| && flat != []
    requires StoppedBy(outcome, flat, o, bus, i)
    ensures StoppedBy(outcome, flat, o, bus, j)
  {
    ConsumedGrows(Assign, bus, i, j);
    forall t: nat | i <= t < j
      ensures !LastIsBefore(bus, o, t, |flat|)
    {
      ConsumedGrows(Assign, bus, i, t);
    }
  }

  /** A position without a bridge costs this walk nothing. */
  lemma {:induction false} PassOver(fabric: ConfigFabric, flat: seq<nat>, o: nat, p: Path, bus: Bus, i: nat, j: nat, sub: nat)
    requires Assigned(fabric, flat, o, p, bus, i, sub)
    requires i <= j <= |bus.fns|
    requires forall k :: i <= k < j ==> !bus.fns[k].Bridge?
    ensures Assigned(fabric, flat, o, p, bus, j, sub)
    decreases j - i
  {
    if i < j {
      NoBridgeHere(Assign, fabric.regs, flat, o, p, bus, i);
      PassOver(fabric, flat, o, p, bus, i + 1, j, sub);
    }
  }

  /** The first part of a bridge: number it, open it, and walk the bus below it. */
  method AssignBelow(fabric: ConfigFabric, ranges: array<Descriptor>, s: Byte, i: nat, sub0: Byte, uninitialised: bool,
                     ghost m: nat, ghost flat: seq<nat>, ghost o: nat, ghost p: Path, ghost bus: Bus)
    returns (outcome: Outcome, second: Byte, sub: Byte, ghost openRegs: RegFile)
    requires BusNumberRanges.Offers(ranges, m, flat)
    requires WellFormed(bus) && i < |bus.fns| && bus.fns[i].Bridge?
    requires o < |flat| && Assigned(fabric, flat, o, p, bus, i, sub0) && flat[o] == s
    modifies fabric
    ensures fabric.Routed(old(fabric.trace))
    ensures if outcome.Done? then
              var k := o + Consumed(Assign, bus, i) + 1;
              var below := bus.fns[i].below;
              && openRegs == old(fabric.regs)[p + [i] := BusRegs(s, second, MAX_BUS, At(old(fabric.regs), p + [i]).latency)]
              && SameOutside(openRegs, fabric.regs, p + [i]) && SameLatency(openRegs, fabric.regs)
              && Numbered(fabric.regs, Assign, flat, below, k, p + [i], |below.fns|)
              && k + Total(Assign, below) < |flat| && second == flat[k] && sub == flat[k + Total(Assign, below)]
            else
              && StoppedBy(outcome, flat, o, bus, i + 1)
              && SameOutside(old(fabric.regs), fabric.regs, p) && SameLatency(old(fabric.regs), fabric.regs)
    decreases bus, 0, 0
  {
    hide PathTo, Consumed, Demand, WellFormed, Numbered, ClearedFrom, RoutedOver, IsBridge, ShortHere, SameOutside,
         SameLatency, At;
    FreshBus(bus, i);
    ghost var k := o + Consumed(Assign, bus, i);
    ghost var regs0, trace0 := fabric.regs, fabric.trace;
    RoutedTrans(fabric.root, fabric.rootNumber, trace0, trace0, trace0);
    SameTrans(regs0, regs0, regs0, p);
    BusNumberRanges.FlatAscends(ranges[..], m, m);
    NotShortBefore(bus, o, i, |flat|);
    openRegs := regs0;
    var request;
    request, sub := BusScan.Reserve(ranges, sub0, 1, m, flat, k);
    second := sub;
    if !request.Done? {
      outcome := if request.LostBit? then LostBit else NoBuses;
      return;
    }
    OpenForWalk(fabric, s, i, second, flat, o, p, bus);
    openRegs := fabric.regs;
    ghost var trace1 := fabric.trace;
    outcome, sub := PciAssignBusNumber(fabric, ranges, second, uninitialised, m, flat, k + 1, p + [i], bus.fns[i].below);
    RoutedTrans(fabric.root, fabric.rootNumber, trace0, trace1, fabric.trace);
    if !outcome.Done? {
      BusScan.OpenFrame(regs0, openRegs, fabric.regs, p, i);
      outcome := if outcome.LostBit? then LostBit else DeviceError;
    }
  }

  /** The body of the inner loop for a bridge. */
  method AssignBridge(fabric: ConfigFabric, ranges: array<Descriptor>, s: Byte, i: nat, sub0: Byte, uninitialised: bool,
                      ghost m: nat, ghost flat: seq<nat>, ghost o: nat, ghost p: Path, ghost bus: Bus)
    returns (outcome: Outcome, sub: Byte)
    requires BusNumberRanges.Offers(ranges, m, flat)
    requires WellFormed(bus) && i < |bus.fns| && bus.fns[i].Bridge?
    requires o < |flat| && Assigned(fabric, flat, o, p, bus, i, sub0) && flat[o] == s
    modifies fabric
    ensures fabric.Routed(old(fabric.trace))
    ensures SameOutside(old(fabric.regs), fabric.regs, p) && SameLatency(old(fabric.regs), fabric.regs)
    ensures if outcome.Done? then Assigned(fabric, flat, o, p, bus, i + 1, sub)
            else StoppedBy(outcome, flat, o, bus, i + 1)
    decreases bus, 0, 1
  {
    hide PathTo, Consumed, Demand, WellFormed, Numbered, ClearedFrom, RoutedOver, IsBridge, StoppedBy, SameOutside,
         SameLatency, At;
    hide BusNumberRanges.Offers;
    FreshBus(bus, i);
    ghost var regs0, trace0 := fabric.regs, fabric.trace;
    var second;
    ghost var openRegs;
    outcome, second, sub, openRegs := AssignBelow(fabric, ranges, s, i, sub0, uninitialised, m, flat, o, p, bus);
    if outcome.Done? {
      ghost var trace1 := fabric.trace;
      CloseBridge(Assign, fabric, s, i, second, sub, regs0, openRegs, flat, o, p, bus);
      RoutedTrans(fabric.root, fabric.rootNumber, trace0, trace1, fabric.trace);
    }
  }

  /** Open bridge i and come to the state in which the bus below it is walked. */
  method OpenForWalk(fabric: ConfigFabric, s: Byte, i: nat, second: Byte, ghost flat: seq<nat>, ghost o: nat,
                     ghost p: Path, ghost bus: Bus)
    requires WalkInv(Assign, fabric, flat, o, p, bus, i) && flat[o] == s && Ascending(flat)
    requires i < |bus.fns| && bus.fns[i].Bridge?
    requires o + Consumed(Assign, bus, i) + 1 < |flat| && second == flat[o + Consumed(Assign, bus, i) + 1]
    modifies fabric
    ensures fabric.Routed(old(fabric.trace))
    ensures fabric.regs == old(fabric.regs)[p + [i] := BusRegs(s, second, MAX_BUS, At(old(fabric.regs), p + [i]).latency)]
    ensures WalkInv(Assign, fabric, flat, o + Consumed(Assign, bus, i) + 1, p + [i], bus.fns[i].below, 0)
  {
    hide PathTo, Consumed, Numbered, ClearedFrom, RoutedOver, IsBridge;
    ghost var regs0 := fabric.regs;
    OpenBridgeTwice(fabric, s, i, second, p, bus);
    ChildReady(Assign, fabric.root, fabric.rootNumber, regs0, fabric.regs, flat, o, p, bus, i, o + Consumed(Assign, bus, i));
  }

  /** This walk writes the subordinate bus twice: the bridge's own number first, then 255. */
  method OpenBridgeTwice(fabric: ConfigFabric, s: Byte, i: nat, second: Byte, ghost p: Path, ghost bus: Bus)
    requires fabric.Faces(p, bus, s, MAX_BUS)
    requires i < |bus.fns| && bus.fns[i].Bridge?
    modifies fabric
    ensures fabric.Routed(old(fabric.trace))
    ensures fabric.regs == old(fabric.regs)[p + [i] := BusRegs(s, second, MAX_BUS, At(old(fabric.regs), p + [i]).latency)]
  {
    hide RoutedOver;
    ghost var regs0, trace0 := fabric.regs, fabric.trace;
    fabric.WriteBusNumbers(s, i, second * 0x100 + s, p, bus, MAX_BUS);
    WriteKeepsPath(fabric.root, fabric.rootNumber, regs0, fabric.regs[p + [i]], p, bus, s, MAX_BUS, i);
    ghost var regs1, trace1 := fabric.regs, fabric.trace;
    fabric.WriteSubordinate(s, i, second, p, bus, MAX_BUS);
    ghost var trace2 := fabric.trace;
    WriteKeepsPath(fabric.root, fabric.rootNumber, regs1, fabric.regs[p + [i]], p, bus, s, MAX_BUS, i);
    fabric.WriteSubordinate(s, i, 0xFF, p, bus, MAX_BUS);
    RoutedTrans(fabric.root, fabric.rootNumber, trace0, trace1, trace2);
    RoutedTrans(fabric.root, fabric.rootNumber, trace0, trace2, fabric.trace);
  }

  /** One turn of the inner loop: the function at position i of bus s. */
  method AssignFunction(fabric: ConfigFabric, ranges: array<Descriptor>, s: Byte, i: nat, sub0: Byte, multi0: bool,
                        ghost m: nat, ghost flat: seq<nat>, ghost o: nat, ghost p: Path, ghost bus: Bus)
    returns (outcome: Outcome, sub: Byte, multi: bool)
    requires BusNumberRanges.Offers(ranges, m, flat)
    requires WellFormed(bus) && i < |bus.fns|
    requires o < |flat| && Assigned(fabric, flat, o, p, bus, i, sub0) && flat[o] == s
    modifies fabric
    ensures fabric.Routed(old(fabric.trace))
    ensures SameOutside(old(fabric.regs), fabric.regs, p) && SameLatency(old(fabric.regs), fabric.regs)
    ensures multi == var f := bus.fns[i]; if f.Absent? then multi0 else f.multi
    ensures if outcome.Done? then Assigned(fabric, flat, o, p, bus, i + 1, sub)
            else StoppedBy(outcome, flat, o, bus, i + 1)
    decreases bus, 0, 2
  {
    hide PathTo, SoleRoute, IsBridge, Numbered, ClearedFrom, At, WellFormed, StoppedBy;
    hide BusNumberRanges.Offers;
    ghost var trace0 := fabric.trace;
    outcome, sub := Done, sub0;
    var header := fabric.ReadHeader(s, i, p, bus, MAX_BUS);
    ghost var trace1 := fabric.trace;
    multi := if header == NoDevice then multi0 else header.multi;
    if header.BridgeHeader? {
      outcome, sub := AssignBridge(fabric, ranges, s, i, sub, multi, m, flat, o, p, bus);
      RoutedTrans(fabric.root, fabric.rootNumber, trace0, trace1, fabric.trace);
    } else {
      PassOver(fabric, flat, o, p, bus, i, i + 1, sub);
    }
  }

  /**
    Number the bridges below bus s. `uninitialised` is what the header buffer holds before the first read: an absent
    function 0 leaves the multi-function bit of the last header in it, and the walk goes by that bit.
  */
  method PciAssignBusNumber(fabric: ConfigFabric, ranges: array<Descriptor>, s: Byte, uninitialised: bool,
                            ghost m: nat, ghost flat: seq<nat>, ghost o: nat, ghost p: Path, ghost bus: Bus)
    returns (outcome: Outcome, sub: Byte)
    requires BusNumberRanges.Offers(ranges, m, flat)
    requires WellFormed(bus)
    requires o < |flat| && flat[o] == s && WalkInv(Assign, fabric, flat, o, p, bus, 0)
    modifies fabric
    ensures fabric.Routed(old(fabric.trace))
    ensures SameOutside(old(fabric.regs), fabric.regs, p) && SameLatency(old(fabric.regs), fabric.regs)
    ensures if outcome.Done? then Assigned(fabric, flat, o, p, bus, |bus.fns|, sub)
            else StoppedBy(outcome, flat, o, bus, |bus.fns|)
    decreases bus, 1
  {
    hide PathTo, RoutedOver, IsBridge, Numbered, ClearedFrom, At, StoppedBy, Consumed, Assigned, WalkInv, HeaderOf;
    hide BusNumberRanges.Offers, SameOutside, SameLatency, WellFormed;
    sub, outcome := s, Done;
    var multi := uninitialised;
    AssignStart(fabric, flat, o, p, bus);
    ghost var trace0 := fabric.trace;
    SameTrans(fabric.regs, fabric.regs, fabric.regs, p);
    RoutedTrans(fabric.root, fabric.rootNumber, trace0, trace0, trace0);
    assert |bus.fns| == POSITIONS by { WellFormedSize(bus); }
    var device := 0;
    while device <= 31
      invariant device <= 32 && outcome.Done? && fabric.Routed(trace0)
      invariant Assigned(fabric, flat, o, p, bus, device * FUNCTIONS, sub)
      invariant SameOutside(old(fabric.regs), fabric.regs, p) && SameLatency(old(fabric.regs), fabric.regs)
    {
      var func := 0;
      while func <= 7
        invariant func <= 8 && outcome.Done? && fabric.Routed(trace0)
        invariant Assigned(fabric, flat, o, p, bus, device * FUNCTIONS + func, sub)
        invariant SameOutside(old(fabric.regs), fabric.regs, p) && SameLatency(old(fabric.regs), fabric.regs)
      {
        var i := device * FUNCTIONS + func;
        ghost var before, trace1 := fabric.regs, fabric.trace;
        outcome, sub, multi := AssignFunction(fabric, ranges, s, i, sub, multi, m, flat, o, p, bus);
        SameTrans(old(fabric.regs), before, fabric.regs, p);
        RoutedTrans(fabric.root, fabric.rootNumber, trace0, trace1, fabric.trace);
        if !outcome.Done? {
          StopsLater(outcome, flat, o, bus, i + 1, |bus.fns|);
          return;
        }
        if func == 0 && !multi {
          BusScan.SlotSkipped(bus, device);
          PassOver(fabric, flat, o, p, bus, i + 1, i + FUNCTIONS, sub);
          func := 7;
        }
        func := func + 1;
      }
      device := device + 1;
    }
  }

  lemma AssignStart(fabric: ConfigFabric, flat: seq<nat>, o: nat, p: Path, bus: Bus)
    requires WalkInv(Assign, fabric, flat, o, p, bus, 0)
    ensures Assigned(fabric, flat, o, p, bus, 0, flat[o])
  {
  }

  /**
    Without padding and reservations the two walks agree: they need the same number of buses, so they end on the same
    one, and they write the same three numbers into every bridge.
  */
  lemma WalksAgree(scanRegs: RegFile, assignRegs: RegFile, flat: seq<nat>, bus: Bus, o: nat, p: Path)
    requires Plain(bus)
    requires Numbered(scanRegs, Scan, flat, bus, o, p, |bus.fns|)
    requires Numbered(assignRegs, Assign, flat, bus, o, p, |bus.fns|)
    ensures Total(Scan, bus) == Total(Assign, bus)
    ensures forall x {:trigger IsBridge(bus, x, |p|)} :: p < x && IsBridge(bus, x, |p|) ==>
              At(scanRegs, x).(latency := 0) == At(assignRegs, x).(latency := 0)
  {
    PlainConsumed(bus, |bus.fns|);
    forall x | p < x && IsBridge(bus, x, |p|)
      ensures At(scanRegs, x).(latency := 0) == At(assignRegs, x).(latency := 0)
    {
      PlainOrds(bus, o, x, |p|);
      assert NumberedAs(At(scanRegs, x), Scan, flat, bus, o, x, |p|);
      assert NumberedAs(At(assignRegs, x), Assign, flat, bus, o, x, |p|);
    }
  }
}
