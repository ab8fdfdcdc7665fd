/** PciScanBus: number the bridges of a bus depth first, through the bridges being numbered. */
module BusScan {
  import opened AcpiDescriptors
  import opened PciTopology
  import opened ConfigSpace
  import opened BusPlan
  import opened BusNumbering
  import opened BusWalk
  import BusNumberRanges

  /** LostBit: an 8-bit cast dropped a bit, after which the source carries on with a wrong bus number. */
  datatype Outcome = Done | NoBuses | PaddingFailed | LostBit

  /** A hot-plug bridge at a position below i, or below one, has no padding to report. */
  ghost predicate FaultyTo(bus: Bus, i: nat)
    requires i <= |bus.fns|
    decreases bus
  {
    exists j: nat :: j < i && bus.fns[j].Bridge? && FaultyBridge(bus, j)
  }

  ghost predicate FaultyBridge(bus: Bus, j: nat)
    requires j < |bus.fns| && bus.fns[j].Bridge?
    decreases bus, 0
  {
    bus.fns[j].hotPlug.PaddingError? || FaultyTo(bus.fns[j].below, |bus.fns[j].below.fns|)
  }

  ghost predicate Faulty(bus: Bus) {
    FaultyTo(bus, |bus.fns|)
  }

  /** Padding to be set aside at the root bridge, asked for by functions at positions below i. */
  function RootPaddingTo(bus: Bus, i: nat): nat
    requires i <= |bus.fns|
    decreases bus, i
  {
    if i == 0 then 0
    else RootPaddingTo(bus, i - 1) +
         match bus.fns[i - 1]
         case Bridge(_, hotPlug, below) =>
           RootPaddingTo(below, |below.fns|) + (if hotPlug.PadAtRoot? then hotPlug.range else 0)
         case _ => 0
  }

  /** What a scan of the functions at positions lo..hi of a bus leaves behind when it runs to the end. */
  ghost predicate Scanned(fabric: ConfigFabric, flat: seq<nat>, o: nat, p: Path, bus: Bus, i: nat, sub: nat)
    reads fabric
  {
    && i <= |bus.fns|
    && WalkInv(Scan, fabric, flat, o, p, bus, i)
    && !FaultyTo(bus, i)
    && o + Consumed(Scan, bus, i) < |flat|
    && sub == flat[o + Consumed(Scan, bus, i)]
  }

  // ---------------------------------------------------------- where a scan stops

  /** What becomes of a plan: it goes through, meets a faulty bridge, or asks for ordinal n, which is not in the list. */
  datatype Stop = Goes | Faults | Short(n: nat)

  /** A request that leads to ordinal n, when the flat list has len elements. */
  function Request(n: nat, len: nat): Stop {
    if n < len then Goes else Short(n)
  }

  /** What stops the scan of the functions at positions below i first, in the order the scan makes its requests. */
  ghost function FirstStop(bus: Bus, o: nat, i: nat, len: nat): Stop
    requires i <= |bus.fns|
    decreases bus, i
  {
    if i == 0 then Goes
    else
      match FirstStop(bus, o, i - 1, len)
      case Goes => StopAt(bus, o, i - 1, len)
      case stop => stop
  }

  /** What stops it at position i: padding that cannot be had, then the bridge's own number, what is below, the padding. */
  ghost function StopAt(bus: Bus, o: nat, i: nat, len: nat): Stop
    requires i < |bus.fns|
    decreases bus, i
  {
    var k := o + Consumed(Scan, bus, i);
    match bus.fns[i]
    case Absent => Goes
    case Endpoint(_, _) => Request(k + Demand(Scan, bus, i), len)
    case Bridge(_, hotPlug, below) =>
      if hotPlug.PaddingError? then Faults
      else if k + 1 >= len then Short(k + 1)
      else
        match FirstStop(below, k + 1, |below.fns|, len)
        case Goes => Request(k + 1 + Total(Scan, below) + Padding(Scan, bus.fns[i]), len)
        case stop => stop
  }

  /** What the scan reports: a shortage, or, if the 8-bit running number overruns, nothing at all. */
  ghost function Verdict(flat: seq<nat>, stop: Stop): Outcome
    requires flat != []
  {
    match stop
    case Goes => Done
    case Faults => PaddingFailed
    case Short(n) => if BusNumberRanges.Overruns(flat[|flat| - 1], |flat|, n) then LostBit else NoBuses
  }

  /** A plan goes through exactly if no bridge is faulty and the demand fits; the request that fails is part of it. */
  lemma {:induction false} GoesExactly(bus: Bus, o: nat, i: nat, len: nat)
    requires i <= |bus.fns| && o < len
    ensures FirstStop(bus, o, i, len) == Goes <==> !FaultyTo(bus, i) && o + Consumed(Scan, bus, i) < len
    ensures FirstStop(bus, o, i, len) == Faults ==> FaultyTo(bus, i)
    ensures FirstStop(bus, o, i, len).Short? ==> len <= FirstStop(bus, o, i, len).n <= o + Consumed(Scan, bus, i)
    decreases bus, i
  {
    if i > 0 {
      GoesExactly(bus, o, i - 1, len);
      FaultyStep(bus, i - 1);
      var k := o + Consumed(Scan, bus, i - 1);
      if bus.fns[i - 1].Bridge? {
        var below := bus.fns[i - 1].below;
        assert Demand(Scan, bus, i - 1) == 1 + Total(Scan, below) + Padding(Scan, bus.fns[i - 1]);
        if k + 1 < len {
          GoesExactly(below, k + 1, |below.fns|, len);
        }
      }
    }
  }

  /** The scan of the functions at positions below i stopped, for the first reason there is. */
  ghost predicate StoppedBy(outcome: Outcome, flat: seq<nat>, o: nat, bus: Bus, i: nat)
    requires i <= |bus.fns| && flat != []
  {
    outcome != Done && outcome == Verdict(flat, FirstStop(bus, o, i, |flat|))
  }

  /** One request for bus numbers, and what it means for the scan. */
  method Reserve(ranges: array<Descriptor>, sub: Byte, count: Byte, ghost m: nat, ghost flat: seq<nat>, ghost k: nat)
    returns (outcome: Outcome, sub': Byte)
    requires BusNumberRanges.Offers(ranges, m, flat)
    requires k < |flat| && sub == flat[k]
    ensures outcome == Verdict(flat, Request(k + count, |flat|))
    ensures outcome == Done ==> sub' == flat[k + count]
    ensures outcome == LostBit ==> BusNumberRanges.Wrapped(ranges[..], m, k + count, sub')
  {
    BusNumberRanges.FlatAscends(ranges[..], m, m);
    var status, next, lost := BusNumberRanges.PciAllocateBusNumber(ranges, sub, count, m);
    assert flat[k] == sub;
    assert BusNumberRanges.Resolved(ranges[..], m, k + count, sub, status, next, lost);
    sub' := next;
    outcome := if lost then LostBit else if status.Success? then Done else NoBuses;
  }

  /** A reason found below bridge i is a reason for the whole bus. */
  lemma StopsHigher(outcome: Outcome, flat: seq<nat>, o: nat, bus: Bus, i: nat)
    requires i < |bus.fns| && bus.fns[i].Bridge? && !bus.fns[i].hotPlug.PaddingError? && flat != []
    requires FirstStop(bus, o, i, |flat|) == Goes && o + Consumed(Scan, bus, i) + 1 < |flat|
    requires StoppedBy(outcome, flat, o + Consumed(Scan, bus, i) + 1, bus.fns[i].below, |bus.fns[i].below.fns|)
    ensures StoppedBy(outcome, flat, o, bus, i + 1)
  {
  }

  /** A reason at position i is a reason for the whole bus. */
  lemma StopsHere(outcome: Outcome, flat: seq<nat>, o: nat, bus: Bus, i: nat)
    requires i < |bus.fns| && flat != []
    requires FirstStop(bus, o, i, |flat|) == Goes
    requires outcome != Done && outcome == Verdict(flat, StopAt(bus, o, i, |flat|))
    ensures StoppedBy(outcome, flat, o, bus, i + 1)
  {
  }

  lemma {:induction false} StopsLater(outcome: Outcome, flat: seq<nat>, o: nat, bus: Bus, i: nat, j: nat)
    requires i <= j <= |bus.fns| && flat != []
    requires StoppedBy(outcome, flat, o, bus, i)
    ensures StoppedBy(outcome, flat, o, bus, j)
    decreases j - i
  {
    if i < j {
      StopsLater(outcome, flat, o, bus, i + 1, j);
    }
  }

  /** The body of the scan's inner loop for a function that is an endpoint. */
  method ScanEndpoint(ranges: array<Descriptor>, reserved: nat, sub0: Byte, temp0: nat,
                      ghost m: nat, ghost flat: seq<nat>, ghost o: nat, ghost bus: Bus, ghost i: nat)
    returns (outcome: Outcome, sub: Byte, temp: nat)
    requires BusNumberRanges.Offers(ranges, m, flat)
    requires i < |bus.fns| && bus.fns[i].Endpoint? && bus.fns[i].reserved == reserved
    requires temp0 == ReservedBefore(bus, i)
    requires o + Consumed(Scan, bus, i) < |flat| && sub0 == flat[o + Consumed(Scan, bus, i)]
    ensures temp == Max(temp0, reserved) || !outcome.Done?
    ensures outcome == Verdict(flat, StopAt(bus, o, i, |flat|))
    ensures outcome.Done? ==>
              o + Consumed(Scan, bus, i + 1) < |flat| && sub == flat[o + Consumed(Scan, bus, i + 1)]
  {
    outcome, sub, temp := Done, sub0, temp0;
    if temp < reserved {
      var count := BusNumberRanges.ToUint8(reserved - temp);
      assert count == Demand(Scan, bus, i);
      outcome, sub := Reserve(ranges, sub, count, m, flat, o + Consumed(Scan, bus, i));
      temp := reserved;
    }
  }

  /** Set aside the buses a hot-plug bridge asks for, below it or at the root bridge. */
  method PadBridge(ranges: array<Descriptor>, hotPlug: HotPlug, sub0: Byte, pad0: Byte, ghost m: nat, ghost flat: seq<nat>, ghost k: nat)
    returns (outcome: Outcome, sub: Byte, pad: Byte)
    requires BusNumberRanges.Offers(ranges, m, flat)
    requires k < |flat| && sub0 == flat[k]
    ensures var count := if hotPlug.PadBelow? then hotPlug.range % 0x100 else 0;
            && outcome == Verdict(flat, Request(k + count, |flat|))
            && (outcome == Done ==> sub == flat[k + count])
    ensures pad == (pad0 + if hotPlug.PadAtRoot? then hotPlug.range else 0) % 0x100
  {
    outcome, sub, pad := Done, sub0, pad0;
    match hotPlug {
      case PadAtRoot(range) =>
        pad := BusNumberRanges.ToUint8(BusNumberRanges.ToUint8(range) + pad0);
      case PadBelow(range) =>
        outcome, sub := Reserve(ranges, sub0, BusNumberRanges.ToUint8(range), m, flat, k);
      case _ =>
    }
  }

  lemma FaultyStep(bus: Bus, i: nat)
    requires i < |bus.fns|
    ensures FaultyTo(bus, i + 1) <==> FaultyTo(bus, i) || (bus.fns[i].Bridge? && FaultyBridge(bus, i))
  {
  }

  lemma FreshBus(bus: Bus, i: nat)
    requires WellFormed(bus) && i < |bus.fns| && bus.fns[i].Bridge?
    ensures var below := bus.fns[i].below;
            && WellFormed(below)
            && Consumed(Scan, below, 0) == 0
            && RootPaddingTo(below, 0) == 0
            && !FaultyTo(below, 0)
  {
  }

  /**
    A bridge is handed bus 0, which is not above the bus it is on. If that is the root bus's number, the scan the source
    goes on to below the bridge speaks to the root bus again, whatever the registers hold.
  */
  ghost predicate StartsOver(fabric: ConfigFabric, second: nat) {
    second == 0 &&
    (fabric.rootNumber == 0 ==>
       forall regs: RegFile :: Target(fabric.root, fabric.rootNumber, regs, second) == Some(([], fabric.root)))
  }

  /**
    The first part of a bridge: give it a bus number, open it, and scan the bus below it. `openRegs` is the register
    file right after the bridge was opened.
  */
  method ScanBelow(fabric: ConfigFabric, ranges: array<Descriptor>, s: Byte, i: nat,
                   sub0: Byte, pad0: Byte, ghost m: nat, ghost flat: seq<nat>, ghost o: nat, ghost p: Path, ghost bus: Bus)
    returns (outcome: Outcome, second: Byte, sub: Byte, pad: Byte, ghost openRegs: RegFile)
    requires BusNumberRanges.Offers(ranges, m, flat)
    requires WellFormed(bus) && i < |bus.fns| && bus.fns[i].Bridge? && !bus.fns[i].hotPlug.PaddingError?
    requires Scanned(fabric, flat, o, p, bus, i, sub0) && flat[o] == s
    modifies fabric
    ensures fabric.Routed(old(fabric.trace))
    ensures SameOutside(old(fabric.regs), fabric.regs, p) && SameLatency(old(fabric.regs), fabric.regs)
    ensures var k := o + Consumed(Scan, bus, i);
            var below := bus.fns[i].below;
            if outcome.Done? then
              && openRegs == old(fabric.regs)[p + [i] := BusRegs(s, second, MAX_BUS, At(old(fabric.regs), p + [i]).latency)]
              && SameOutside(openRegs, fabric.regs, p + [i]) && SameLatency(openRegs, fabric.regs)
              && Numbered(fabric.regs, Scan, flat, below, k + 1, p + [i], |below.fns|)
              && !Faulty(below)
              && k + 1 + Total(Scan, below) < |flat|
              && second == flat[k + 1] && sub == flat[k + 1 + Total(Scan, below)]
              && pad == (pad0 + RootPaddingTo(below, |below.fns|)) % 0x100
            else StoppedBy(outcome, flat, o, bus, i + 1)
    ensures outcome.LostBit? && o + Consumed(Scan, bus, i) + 1 >= |flat| ==> StartsOver(fabric, second)
    decreases bus, 0, 0
  {
    hide PathTo, RootPaddingTo, Consumed, Demand, FaultyTo, WellFormed, Numbered, ClearedFrom, SoleRoute;
    FreshBus(bus, i);
    ghost var k := o + Consumed(Scan, bus, i);
    ghost var below := bus.fns[i].below;
    ghost var regs0 := fabric.regs;
    ghost var trace0 := fabric.trace;
    BusNumberRanges.FlatAscends(ranges[..], m, m);
    ScannedGoes(fabric, flat, o, p, bus, i, sub0);
    RoutedTrans(fabric.root, fabric.rootNumber, trace0, trace0, trace0);
    pad, openRegs := pad0, regs0;
    outcome, sub := Reserve(ranges, sub0, 1, m, flat, k);
    second := sub;
    if !outcome.Done? {
      StopsHere(outcome, flat, o, bus, i);
      LostAtBridge(ranges, m, flat, k, outcome, second);
      return;
    }
    OpenBridge(fabric, s, i, second, p, bus);
    openRegs := fabric.regs;
    ghost var trace1 := fabric.trace;
    ChildReady(Scan, fabric.root, fabric.rootNumber, regs0, openRegs, flat, o, p, bus, i, k);
    outcome, sub, pad := PciScanBus(fabric, ranges, second, sub, pad, m, flat, k + 1, p + [i], below);
    OpenFrame(regs0, openRegs, fabric.regs, p, i);
    RoutedTrans(fabric.root, fabric.rootNumber, trace0, trace1, fabric.trace);
    if !outcome.Done? {
      StopsHigher(outcome, flat, o, bus, i);
    }
  }

  /** The second part of a bridge, once the bus below it is scanned: its padding. */
  method PadAfter(ranges: array<Descriptor>, hotPlug: HotPlug, sub0: Byte, pad0: Byte, ghost pad: Byte, ghost m: nat,
                  ghost flat: seq<nat>, ghost o: nat, ghost bus: Bus, ghost i: nat)
    returns (outcome: Outcome, sub: Byte, pad': Byte)
    requires BusNumberRanges.Offers(ranges, m, flat)
    requires i < |bus.fns| && bus.fns[i].Bridge? && bus.fns[i].hotPlug == hotPlug && !hotPlug.PaddingError?
    requires o < |flat| && FirstStop(bus, o, i, |flat|) == Goes && !Faulty(bus.fns[i].below)
    requires var k := o + Consumed(Scan, bus, i) + 1 + Total(Scan, bus.fns[i].below);
             k < |flat| && sub0 == flat[k]
    requires var below := bus.fns[i].below;
             pad0 == (pad + RootPaddingTo(below, |below.fns|)) % 0x100
    ensures if outcome.Done? then
              && o + Consumed(Scan, bus, i + 1) < |flat| && sub == flat[o + Consumed(Scan, bus, i + 1)]
              && pad' == (pad + (RootPaddingTo(bus, i + 1) - RootPaddingTo(bus, i))) % 0x100
            else StoppedBy(outcome, flat, o, bus, i + 1)
  {
    BridgeDemand(bus, i, pad);
    var below := bus.fns[i].below;
    GoesExactly(below, o + Consumed(Scan, bus, i) + 1, |below.fns|, |flat|);
    outcome, sub, pad' := PadBridge(ranges, hotPlug, sub0, pad0, m, flat,
      o + Consumed(Scan, bus, i) + 1 + Total(Scan, bus.fns[i].below));
    if !outcome.Done? {
      StopsHere(outcome, flat, o, bus, i);
    }
  }

  /** The body of the scan's inner loop for a function that is a PCI-to-PCI bridge. */
  method ScanBridge(fabric: ConfigFabric, ranges: array<Descriptor>, s: Byte, i: nat, hotPlug: HotPlug,
                    sub0: Byte, pad0: Byte, ghost m: nat, ghost flat: seq<nat>, ghost o: nat, ghost p: Path, ghost bus: Bus)
    returns (outcome: Outcome, sub: Byte, pad: Byte)
    requires BusNumberRanges.Offers(ranges, m, flat)
    requires WellFormed(bus) && i < |bus.fns| && bus.fns[i].Bridge? && bus.fns[i].hotPlug == hotPlug
    requires Scanned(fabric, flat, o, p, bus, i, sub0) && flat[o] == s
    modifies fabric
    ensures fabric.Routed(old(fabric.trace))
    ensures SameOutside(old(fabric.regs), fabric.regs, p) && SameLatency(old(fabric.regs), fabric.regs)
    ensures if outcome.Done? then
              && Scanned(fabric, flat, o, p, bus, i + 1, sub)
              && pad == (pad0 + (RootPaddingTo(bus, i + 1) - RootPaddingTo(bus, i))) % 0x100
            else StoppedBy(outcome, flat, o, bus, i + 1)
    decreases bus, 0, 1
  {
    hide PathTo, RootPaddingTo, Consumed, Demand, FaultyTo, WellFormed, SoleRoute, IsBridge, Numbered, ClearedFrom, At;
    hide BusNumberRanges.Offers;
    ghost var regs0 := fabric.regs;
    ghost var trace0 := fabric.trace;
    sub, pad := sub0, pad0;
    FaultyStep(bus, i);
    ScannedGoes(fabric, flat, o, p, bus, i, sub0);
    if hotPlug.PaddingError? {
      StopsHere(PaddingFailed, flat, o, bus, i);
      return PaddingFailed, sub, pad;
    }
    ghost var openRegs;
    var second;
    outcome, second, sub, pad, openRegs := ScanBelow(fabric, ranges, s, i, sub0, pad0, m, flat, o, p, bus);
    if outcome.Done? {
      outcome, sub, pad := PadAfter(ranges, hotPlug, sub, pad, pad0, m, flat, o, bus, i);
    }
    if outcome.Done? {
      ghost var trace1 := fabric.trace;
      CloseBridge(Scan, fabric, s, i, second, sub, regs0, openRegs, flat, o, p, bus);
      RoutedTrans(fabric.root, fabric.rootNumber, trace0, trace1, fabric.trace);
    }
  }

  lemma ScannedGoes(fabric: ConfigFabric, flat: seq<nat>, o: nat, p: Path, bus: Bus, i: nat, sub: nat)
    requires Scanned(fabric, flat, o, p, bus, i, sub)
    ensures FirstStop(bus, o, i, |flat|) == Goes
  {
    GoesExactly(bus, o, i, |flat|);
  }

  /** A bridge whose request loses a bit is handed bus 0, which is not above the bus it is on. */
  lemma LostAtBridge(ranges: array<Descriptor>, m: nat, flat: seq<nat>, k: nat, outcome: Outcome, second: Byte)
    requires BusNumberRanges.Offers(ranges, m, flat) && k < |flat|
    requires outcome == Verdict(flat, Request(k + 1, |flat|))
    requires outcome == LostBit ==> BusNumberRanges.Wrapped(ranges[..], m, k + 1, second)
    ensures outcome == LostBit ==> second == 0 && flat[|flat| - 1] == MAX_BUS
  {
    if outcome == LostBit {
      BusNumberRanges.FlatAscends(ranges[..], m, m);
      BusNumberRanges.WrapsToZero(ranges[..], m, second);
    }
  }

  /** What a bridge adds to the two running totals of a scan. */
  lemma BridgeDemand(bus: Bus, i: nat, pad0: nat)
    requires i < |bus.fns| && bus.fns[i].Bridge?
    ensures Consumed(Scan, bus, i + 1) ==
            Consumed(Scan, bus, i) + 1 + Total(Scan, bus.fns[i].below) + Padding(Scan, bus.fns[i])
    ensures var below := bus.fns[i].below;
            var here := if bus.fns[i].hotPlug.PadAtRoot? then bus.fns[i].hotPlug.range else 0;
            ((pad0 + RootPaddingTo(below, |below.fns|)) % 0x100 + here) % 0x100 ==
            (pad0 + (RootPaddingTo(bus, i + 1) - RootPaddingTo(bus, i))) % 0x100
  {
    var below := bus.fns[i].below;
    var here := if bus.fns[i].hotPlug.PadAtRoot? then bus.fns[i].hotPlug.range else 0;
    ModuloSum(pad0, RootPaddingTo(below, |below.fns|), here);
    assert Demand(Scan, bus, i) == 1 + Total(Scan, below) + Padding(Scan, bus.fns[i]);
    assert RootPaddingTo(bus, i + 1) - RootPaddingTo(bus, i) == RootPaddingTo(below, |below.fns|) + here;
  }

  lemma ModuloSum(a: nat, b: nat, c: nat)
    ensures ((a + b) % 0x100 + c) % 0x100 == (a + (b + c)) % 0x100
  {
  }

  /** Everything written while a bridge is open lies at it or below it. */
  lemma OpenFrame(regs0: RegFile, regs1: RegFile, regs2: RegFile, p: Path, i: nat)
    requires exists r: BusRegs :: regs1 == regs0[p + [i] := r] && r.latency == At(regs0, p + [i]).latency
    requires SameOutside(regs1, regs2, p + [i]) && SameLatency(regs1, regs2)
    ensures SameOutside(regs0, regs2, p) && SameLatency(regs0, regs2)
  {
    var q := p + [i];
    assert forall x {:trigger At(regs1, x)} :: x != q ==> At(regs1, x) == At(regs0, x);
    assert OnlyBelow(regs0, regs2, q);
    SmallerFrame(regs0, regs2, p, i);
  }

  /** One turn of the scan's inner loop: the function at position i of bus s. */
  method ScanFunction(fabric: ConfigFabric, ranges: array<Descriptor>, s: Byte, i: nat, sub0: Byte, pad0: Byte, temp0: nat,
                      ghost m: nat, ghost flat: seq<nat>, ghost o: nat, ghost p: Path, ghost bus: Bus)
    returns (outcome: Outcome, sub: Byte, pad: Byte, temp: nat, header: Header)
    requires BusNumberRanges.Offers(ranges, m, flat)
    requires WellFormed(bus) && i < |bus.fns|
    requires Scanned(fabric, flat, o, p, bus, i, sub0) && flat[o] == s
    requires temp0 == ReservedBefore(bus, i)
    modifies fabric
    ensures fabric.Routed(old(fabric.trace))
    ensures SameOutside(old(fabric.regs), fabric.regs, p) && SameLatency(old(fabric.regs), fabric.regs)
    ensures header == HeaderOf(bus.fns[i])
    ensures if outcome.Done? then
              && Scanned(fabric, flat, o, p, bus, i + 1, sub)
              && pad == (pad0 + (RootPaddingTo(bus, i + 1) - RootPaddingTo(bus, i))) % 0x100
              && ((i + 1) % FUNCTIONS != 0 ==> temp == ReservedBefore(bus, i + 1))
            else StoppedBy(outcome, flat, o, bus, i + 1)
    decreases bus, 0, 2
  {
    hide PathTo, SoleRoute, IsBridge, Numbered, ClearedFrom, At, WellFormed, StoppedBy;
    hide BusNumberRanges.Offers;
    ghost var trace0 := fabric.trace;
    ScannedGoes(fabric, flat, o, p, bus, i, sub0);
    header := fabric.ReadHeader(s, i, p, bus, MAX_BUS);
    ghost var trace1 := fabric.trace;
    outcome, sub, pad, temp := Done, sub0, pad0, temp0;
    FaultyStep(bus, i);
    match header {
      case NoDevice =>
        SkipAbsent(fabric, flat, o, p, bus, i, i + 1, sub);
      case EndpointHeader(_, reserved) =>
        NoBridgeHere(Scan, fabric.regs, flat, o, p, bus, i);
        assert WalkInv(Scan, fabric, flat, o, p, bus, i + 1);
        outcome, sub, temp := ScanEndpoint(ranges, reserved, sub, temp, m, flat, o, bus, i);
        if !outcome.Done? {
          StopsHere(outcome, flat, o, bus, i);
        }
      case BridgeHeader(_, hotPlug) =>
        outcome, sub, pad := ScanBridge(fabric, ranges, s, i, hotPlug, sub, pad, m, flat, o, p, bus);
        RoutedTrans(fabric.root, fabric.rootNumber, trace0, trace1, fabric.trace);
    }
  }

  /** Functions 1 to 7 of a slot without a multi-function function 0 are absent, so passing them over changes nothing. */
  lemma {:induction false} SkipAbsent(fabric: ConfigFabric, flat: seq<nat>, o: nat, p: Path, bus: Bus, i: nat, j: nat, sub: nat)
    requires Scanned(fabric, flat, o, p, bus, i, sub)
    requires i <= j <= |bus.fns|
    requires forall k :: i <= k < j ==> bus.fns[k].Absent?
    ensures Scanned(fabric, flat, o, p, bus, j, sub)
    ensures RootPaddingTo(bus, j) == RootPaddingTo(bus, i)
    decreases j - i
  {
    if i < j {
      NoBridgeHere(Scan, fabric.regs, flat, o, p, bus, i);
      FaultyStep(bus, i);
      SkipAbsent(fabric, flat, o, p, bus, i + 1, j, sub);
    }
  }

  lemma ModuloStep(a: nat, b: nat, c: nat)
    requires b <= c
    ensures ((a + b) % 0x100 + (c - b)) % 0x100 == (a + c) % 0x100
  {
    ModuloSum(a, b, c - b);
  }

  lemma RootPaddingGrows(bus: Bus, i: nat)
    requires i < |bus.fns|
    ensures RootPaddingTo(bus, i) <= RootPaddingTo(bus, i + 1)
  {
  }

  /**
    Scan bus s, at path p, whose number is element o of the flat list. The scan runs to the end exactly when no bridge
    is faulty and there are enough bus numbers, and otherwise ends with what stops its plan first; when it runs to the
    end every bridge below the bus is numbered by the plan. Whether it runs to the end or stops, every access it makes
    is routed to the bus it means and nowhere else.
  */
  method PciScanBus(fabric: ConfigFabric, ranges: array<Descriptor>, s: Byte, sub0: Byte, pad0: Byte,
                    ghost m: nat, ghost flat: seq<nat>, ghost o: nat, ghost p: Path, ghost bus: Bus)
    returns (outcome: Outcome, sub: Byte, pad: Byte)
    requires BusNumberRanges.Offers(ranges, m, flat)
    requires WellFormed(bus)
    requires o < |flat| && Scanned(fabric, flat, o, p, bus, 0, sub0) && flat[o] == s
    modifies fabric
    ensures fabric.Routed(old(fabric.trace))
    ensures SameOutside(old(fabric.regs), fabric.regs, p) && SameLatency(old(fabric.regs), fabric.regs)
    ensures if outcome.Done? then
              && Scanned(fabric, flat, o, p, bus, |bus.fns|, sub)
              && pad == (pad0 + RootPaddingTo(bus, |bus.fns|)) % 0x100
            else StoppedBy(outcome, flat, o, bus, |bus.fns|)
    ensures outcome == Verdict(flat, FirstStop(bus, o, |bus.fns|, |flat|))
    decreases bus, 1
  {
    hide PathTo, RoutedOver, IsBridge, Numbered, ClearedFrom, At, Scanned, FaultyTo, Consumed, FirstStop;
    hide BusNumberRanges.Offers, RootPaddingTo, ReservedBefore, SameOutside, SameLatency, WellFormed;
    ghost var trace0 := fabric.trace;
    SameTrans(fabric.regs, fabric.regs, fabric.regs, p);
    RoutedTrans(fabric.root, fabric.rootNumber, trace0, trace0, trace0);
    outcome, sub, pad := Done, sub0, pad0;
    ScanStart(fabric, flat, o, p, bus, sub);
    assert |bus.fns| == POSITIONS by { WellFormedSize(bus); }
    var device := 0;
    while device <= 31
      invariant device <= 32 && outcome.Done? && fabric.Routed(trace0)
      invariant Scanned(fabric, flat, o, p, bus, device * FUNCTIONS, sub)
      invariant SameOutside(old(fabric.regs), fabric.regs, p) && SameLatency(old(fabric.regs), fabric.regs)
      invariant pad == (pad0 + RootPaddingTo(bus, device * FUNCTIONS)) % 0x100
    {
      var temp := 0;
      var func := 0;
      SlotStart(bus, device);
      while func <= 7
        invariant func <= 8 && outcome.Done? && fabric.Routed(trace0)
        invariant Scanned(fabric, flat, o, p, bus, device * FUNCTIONS + func, sub)
        invariant SameOutside(old(fabric.regs), fabric.regs, p) && SameLatency(old(fabric.regs), fabric.regs)
        invariant pad == (pad0 + RootPaddingTo(bus, device * FUNCTIONS + func)) % 0x100
        invariant func < 8 ==> temp == ReservedBefore(bus, device * FUNCTIONS + func)
      {
        var i := device * FUNCTIONS + func;
        var header;
        ghost var before, trace1 := fabric.regs, fabric.trace;
        outcome, sub, pad, temp, header := ScanFunction(fabric, ranges, s, i, sub, pad, temp, m, flat, o, p, bus);
        SameTrans(old(fabric.regs), before, fabric.regs, p);
        RoutedTrans(fabric.root, fabric.rootNumber, trace0, trace1, fabric.trace);
        if !outcome.Done? {
          StopsLater(outcome, flat, o, bus, i + 1, |bus.fns|);
          return;
        }
        RootPaddingGrows(bus, i);
        ModuloStep(pad0, RootPaddingTo(bus, i), RootPaddingTo(bus, i + 1));
        if func == 0 && header != NoDevice && !header.multi {
          SlotSkipped(bus, device);
          SkipAbsent(fabric, flat, o, p, bus, i + 1, i + FUNCTIONS, sub);
          func := 7;
        }
        func := func + 1;
      }
      device := device + 1;
    }
    ScannedGoes(fabric, flat, o, p, bus, |bus.fns|, sub);
  }

  lemma ScanStart(fabric: ConfigFabric, flat: seq<nat>, o: nat, p: Path, bus: Bus, sub: nat)
    requires Scanned(fabric, flat, o, p, bus, 0, sub)
    ensures RootPaddingTo(bus, 0) == 0
  {
  }

  lemma SlotStart(bus: Bus, device: nat)
    requires device * FUNCTIONS <= |bus.fns|
    ensures ReservedBefore(bus, device * FUNCTIONS) == 0
  {
  }

  /** The functions a scan passes over are not there. */
  lemma SlotSkipped(bus: Bus, device: nat)
    requires WellFormed(bus) && device < 32
    requires var f := bus.fns[device * FUNCTIONS]; f.Absent? || !f.multi
    ensures forall k :: device * FUNCTIONS < k < device * FUNCTIONS + FUNCTIONS ==> bus.fns[k].Absent?
  {
    hide WellFormed;
    WellFormedSize(bus);
    forall k | device * FUNCTIONS < k < device * FUNCTIONS + FUNCTIONS
      ensures bus.fns[k].Absent?
    {
      SlotOf(device, k);
      SkippedIsAbsent(bus, device * FUNCTIONS, k);
    }
  }

  lemma SlotOf(device: nat, k: nat)
    requires device * FUNCTIONS <= k < device * FUNCTIONS + FUNCTIONS
    ensures k - k % FUNCTIONS == device * FUNCTIONS
  {
  }

  lemma SkippedIsAbsent(bus: Bus, first: nat, k: nat)
    requires WellFormed(bus) && k < |bus.fns| && first == k - k % FUNCTIONS && SkippedBy(bus, first, k)
    ensures bus.fns[k].Absent?
  {
  }
}
