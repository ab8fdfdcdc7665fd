/**
  The bus numbering a depth-first walk produces, in closed form. Everything is counted in ordinals, positions in the
  flat list of available bus numbers: a bridge's secondary bus comes right after all the buses consumed before it, and
  its subordinate bus is the last one consumed below it.
*/
module BusPlan {
  import opened PciTopology

  /** Scan reserves buses for hot-plug padding and SR-IOV; Assign numbers bridges only. */
  datatype Walk = Scan | Assign

  function Max(a: nat, b: nat): nat {
    if a < b then b else a
  }

  /** Buses already reserved for the slot when the walk comes to position i. */
  function ReservedBefore(bus: Bus, i: nat): nat
    requires i <= |bus.fns|
  {
    if i % FUNCTIONS == 0 then 0
    else if bus.fns[i - 1].Endpoint? then Max(ReservedBefore(bus, i - 1), bus.fns[i - 1].reserved)
    else ReservedBefore(bus, i - 1)
  }

  /** Buses asked for below a bridge for later hot-plug. */
  function PaddingAsked(f: Function): nat {
    if f.Bridge? && f.hotPlug.PadBelow? then f.hotPlug.range else 0
  }

  /** Buses a bridge keeps for later hot-plug below it; the request is cast to 8 bits. */
  function Padding(w: Walk, f: Function): nat {
    if w.Scan? then PaddingAsked(f) % 0x100 else 0
  }

  /** Buses consumed by the function at position i, with everything below it. */
  function Demand(w: Walk, bus: Bus, i: nat): nat
    requires i < |bus.fns|
    decreases bus, i, 0
  {
    match bus.fns[i]
    case Absent => 0
    case Endpoint(_, reserved) =>
      if w.Scan? && ReservedBefore(bus, i) < reserved then (reserved - ReservedBefore(bus, i)) % 0x100 else 0
    case Bridge(_, _, below) => 1 + Consumed(w, below, |below.fns|) + Padding(w, bus.fns[i])
  }

  /** Buses consumed by the functions at positions below i. */
  function Consumed(w: Walk, bus: Bus, i: nat): nat
    requires i <= |bus.fns|
    decreases bus, i
  {
    if i == 0 then 0 else Consumed(w, bus, i - 1) + Demand(w, bus, i - 1)
  }

  function Total(w: Walk, bus: Bus): nat {
    Consumed(w, bus, |bus.fns|)
  }

  /** The ordinals of a bridge's three registers, for a bridge x below the bus at x[..d] whose ordinal is o. */
  ghost function SecondaryOrd(w: Walk, bus: Bus, o: nat, x: Path, d: nat): nat
    requires IsBridge(bus, x, d)
    decreases bus
  {
    var next := o + Consumed(w, bus, x[d]) + 1;
    if d + 1 == |x| then next else SecondaryOrd(w, bus.fns[x[d]].below, next, x, d + 1)
  }

  ghost function SubordinateOrd(w: Walk, bus: Bus, o: nat, x: Path, d: nat): nat
    requires IsBridge(bus, x, d)
    decreases bus
  {
    if d + 1 == |x| then o + Consumed(w, bus, x[d] + 1)
    else SubordinateOrd(w, bus.fns[x[d]].below, o + Consumed(w, bus, x[d]) + 1, x, d + 1)
  }

  ghost function PrimaryOrd(w: Walk, bus: Bus, o: nat, x: Path, d: nat): nat
    requires IsBridge(bus, x, d)
    decreases bus
  {
    if d + 1 == |x| then o else PrimaryOrd(w, bus.fns[x[d]].below, o + Consumed(w, bus, x[d]) + 1, x, d + 1)
  }

  lemma {:induction false} ConsumedGrows(w: Walk, bus: Bus, i: nat, j: nat)
    requires i <= j <= |bus.fns|
    ensures Consumed(w, bus, i) <= Consumed(w, bus, j)
  {
    if i < j {
      ConsumedGrows(w, bus, i, j - 1);
    }
  }

  /** Every ordinal of a bridge lies in the stretch its top-level ancestor consumes, and in order. */
  lemma {:induction false} OrdBounds(w: Walk, bus: Bus, o: nat, x: Path, d: nat)
    requires IsBridge(bus, x, d)
    ensures o <= PrimaryOrd(w, bus, o, x, d) < SecondaryOrd(w, bus, o, x, d) <= SubordinateOrd(w, bus, o, x, d)
    ensures o + Consumed(w, bus, x[d]) < SecondaryOrd(w, bus, o, x, d)
    ensures SubordinateOrd(w, bus, o, x, d) <= o + Consumed(w, bus, x[d] + 1) <= o + Total(w, bus)
    ensures d + 1 < |x| ==> o + Consumed(w, bus, x[d]) + 1 <= PrimaryOrd(w, bus, o, x, d)
    decreases bus
  {
    ConsumedGrows(w, bus, x[d] + 1, |bus.fns|);
    var below := bus.fns[x[d]].below;
    assert Demand(w, bus, x[d]) == 1 + Total(w, below) + Padding(w, bus.fns[x[d]]);
    if d + 1 < |x| {
      OrdBounds(w, below, o + Consumed(w, bus, x[d]) + 1, x, d + 1);
    }
  }

  /** A bridge below another bridge is numbered within it. */
  lemma {:induction false} OrdNested(w: Walk, bus: Bus, o: nat, x: Path, y: Path, d: nat)
    requires IsBridge(bus, x, d) && IsBridge(bus, y, d)
    requires x < y
    ensures SecondaryOrd(w, bus, o, x, d) < SecondaryOrd(w, bus, o, y, d)
    ensures SubordinateOrd(w, bus, o, y, d) <= SubordinateOrd(w, bus, o, x, d)
    ensures SecondaryOrd(w, bus, o, x, d) <= PrimaryOrd(w, bus, o, y, d)
    decreases bus
  {
    assert x[d] == y[d];
    var below := bus.fns[x[d]].below;
    var next := o + Consumed(w, bus, x[d]) + 1;
    assert Demand(w, bus, x[d]) == 1 + Total(w, below) + Padding(w, bus.fns[x[d]]);
    if d + 1 == |x| {
      OrdBounds(w, below, next, y, d + 1);
    } else {
      OrdNested(w, below, next, x, y, d + 1);
    }
  }

  /** A bridge directly below another has its secondary bus as primary bus. */
  lemma {:induction false} OrdParent(w: Walk, bus: Bus, o: nat, x: Path, y: Path, d: nat)
    requires IsBridge(bus, x, d) && IsBridge(bus, y, d)
    requires x < y && |y| == |x| + 1
    ensures PrimaryOrd(w, bus, o, y, d) == SecondaryOrd(w, bus, o, x, d)
    decreases bus
  {
    assert x[d] == y[d];
    if d + 1 < |x| {
      OrdParent(w, bus.fns[x[d]].below, o + Consumed(w, bus, x[d]) + 1, x, y, d + 1);
    }
  }

  /** Bridges whose paths part at step e get disjoint stretches. */
  lemma {:induction false} OrdDisjoint(w: Walk, bus: Bus, o: nat, x: Path, y: Path, d: nat, e: nat)
    requires IsBridge(bus, x, d) && IsBridge(bus, y, d)
    requires d <= e < |x| && e < |y| && x[e] != y[e]
    requires forall k :: d <= k < e ==> x[k] == y[k]
    ensures || SubordinateOrd(w, bus, o, x, d) < SecondaryOrd(w, bus, o, y, d)
            || SubordinateOrd(w, bus, o, y, d) < SecondaryOrd(w, bus, o, x, d)
    decreases bus
  {
    if d < e {
      OrdDisjoint(w, bus.fns[x[d]].below, o + Consumed(w, bus, x[d]) + 1, x, y, d + 1, e);
    } else {
      OrdBounds(w, bus, o, x, d);
      OrdBounds(w, bus, o, y, d);
      if x[d] < y[d] {
        ConsumedGrows(w, bus, x[d] + 1, y[d]);
      } else {
        ConsumedGrows(w, bus, y[d] + 1, x[d]);
      }
    }
  }

  /** Two paths of which neither leads on to the other part somewhere. */
  lemma PathsPart(x: Path, y: Path) returns (e: nat)
    requires !(x <= y) && !(y <= x)
    ensures e < |x| && e < |y| && x[e] != y[e]
    ensures forall k :: 0 <= k < e ==> x[k] == y[k]
  {
    e := 0;
    while e < |x| && e < |y| && x[e] == y[e]
      invariant e <= |x| && e <= |y|
      invariant forall k :: 0 <= k < e ==> x[k] == y[k]
    {
      e := e + 1;
    }
    assert e == |x| ==> x <= y;
    assert e == |y| ==> y <= x;
  }

  // ------------------------------------------------------------ total demand

  /** Bridges at positions below i, with all bridges below them. */
  function BridgesTo(bus: Bus, i: nat): nat
    requires i <= |bus.fns|
    decreases bus, i
  {
    if i == 0 then 0
    else BridgesTo(bus, i - 1) +
         if bus.fns[i - 1].Bridge? then 1 + BridgesTo(bus.fns[i - 1].below, |bus.fns[i - 1].below.fns|) else 0
  }

  /** Hot-plug padding asked for below the functions at positions below i. */
  function PaddingTo(bus: Bus, i: nat): nat
    requires i <= |bus.fns|
    decreases bus, i
  {
    if i == 0 then 0
    else PaddingTo(bus, i - 1) +
         if bus.fns[i - 1].Bridge? then
           PaddingTo(bus.fns[i - 1].below, |bus.fns[i - 1].below.fns|) + PaddingAsked(bus.fns[i - 1])
         else 0
  }

  /** The largest reservation among the endpoints at positions lo..hi. */
  function LargestReservation(bus: Bus, lo: nat, hi: nat): nat
    requires lo <= hi <= |bus.fns|
  {
    if lo == hi then 0
    else if bus.fns[hi - 1].Endpoint? then Max(LargestReservation(bus, lo, hi - 1), bus.fns[hi - 1].reserved)
    else LargestReservation(bus, lo, hi - 1)
  }

  /** Per device slot the largest reservation of its endpoints, over the first n slots of this bus. */
  function ReservedOnBus(bus: Bus, n: nat): nat
    requires n * FUNCTIONS <= |bus.fns|
  {
    if n == 0 then 0
    else ReservedOnBus(bus, n - 1) + LargestReservation(bus, (n - 1) * FUNCTIONS, n * FUNCTIONS)
  }

  /** The same for all buses below the functions at positions below i. */
  function ReservedBelow(bus: Bus, i: nat): nat
    requires i <= |bus.fns|
    decreases bus, i
  {
    if i == 0 then 0
    else ReservedBelow(bus, i - 1) + if bus.fns[i - 1].Bridge? then Reserved(bus.fns[i - 1].below) else 0
  }

  function Reserved(bus: Bus): nat
    decreases bus, |bus.fns| + 1
  {
    ReservedOnBus(bus, |bus.fns| / FUNCTIONS) + ReservedBelow(bus, |bus.fns|)
  }

  /** What an endpoint asks for beyond what its slot has reserved already, before it is cast to 8 bits. */
  function Increment(bus: Bus, i: nat): nat
    requires i < |bus.fns|
  {
    if bus.fns[i].Endpoint? && ReservedBefore(bus, i) < bus.fns[i].reserved then
      bus.fns[i].reserved - ReservedBefore(bus, i)
    else 0
  }

  /** Every increment of a slot's reservation and every padding request fits 8 bits. */
  ghost predicate NarrowTo(bus: Bus, i: nat)
    requires i <= |bus.fns|
    decreases bus
  {
    forall j: nat :: j < i ==> NarrowAt(bus, j)
  }

  ghost predicate NarrowAt(bus: Bus, j: nat)
    requires j < |bus.fns|
    decreases bus, 0
  {
    Increment(bus, j) < 0x100 && PaddingAsked(bus.fns[j]) < 0x100 &&
    (bus.fns[j].Bridge? ==> NarrowTo(bus.fns[j].below, |bus.fns[j].below.fns|))
  }

  /** What a cast to 8 bits drops. */
  function Dropped(n: nat): (d: nat)
    ensures d + n % 0x100 == n
    ensures d == 0 <==> n < 0x100
    ensures d != 0 ==> d >= 0x100
  {
    n - n % 0x100
  }

  /** Buses the casts drop from the reservations and the padding of the functions at positions below i, and below them. */
  function DroppedTo(bus: Bus, i: nat): nat
    requires i <= |bus.fns|
    decreases bus, i
  {
    if i == 0 then 0
    else DroppedTo(bus, i - 1) + Dropped(Increment(bus, i - 1)) + Dropped(PaddingAsked(bus.fns[i - 1])) +
         if bus.fns[i - 1].Bridge? then DroppedTo(bus.fns[i - 1].below, |bus.fns[i - 1].below.fns|) else 0
  }

  /** Nothing is dropped exactly if every increment and every padding fits; otherwise 256 buses at least are. */
  lemma {:induction false} DroppedNothing(bus: Bus, i: nat)
    requires i <= |bus.fns|
    ensures DroppedTo(bus, i) == 0 <==> NarrowTo(bus, i)
    ensures DroppedTo(bus, i) != 0 ==> DroppedTo(bus, i) >= 0x100
    decreases bus, i
  {
    if i > 0 {
      DroppedNothing(bus, i - 1);
      if bus.fns[i - 1].Bridge? {
        DroppedNothing(bus.fns[i - 1].below, |bus.fns[i - 1].below.fns|);
      }
      assert NarrowTo(bus, i) <==> NarrowTo(bus, i - 1) && NarrowAt(bus, i - 1);
    }
  }

  lemma {:induction false} ReservedBeforeIsLargest(bus: Bus, i: nat)
    requires i <= |bus.fns|
    ensures ReservedBefore(bus, i) == LargestReservation(bus, i - i % FUNCTIONS, i)
  {
    if i % FUNCTIONS != 0 {
      ReservedBeforeIsLargest(bus, i - 1);
      assert (i - 1) - (i - 1) % FUNCTIONS == i - i % FUNCTIONS;
    }
  }

  /** What one endpoint adds to its slot's reservation, and how slots add up. */
  lemma SlotStep(bus: Bus, i: nat)
    requires i < |bus.fns|
    ensures var first := i - i % FUNCTIONS;
            LargestReservation(bus, first, i + 1) ==
            if bus.fns[i].Endpoint? then Max(ReservedBefore(bus, i), bus.fns[i].reserved) else ReservedBefore(bus, i)
    ensures InSlots(bus, i) + LargestReservation(bus, i - i % FUNCTIONS, i + 1) - ReservedBefore(bus, i) == InSlots(bus, i + 1)
  {
    ReservedBeforeIsLargest(bus, i);
    var slot := i / FUNCTIONS;
    assert slot * FUNCTIONS == i - i % FUNCTIONS;
    if (i + 1) % FUNCTIONS == 0 {
      assert (i + 1) / FUNCTIONS == slot + 1 && (slot + 1) * FUNCTIONS == i + 1;
    } else {
      assert (i + 1) / FUNCTIONS == slot && (i + 1) - (i + 1) % FUNCTIONS == i - i % FUNCTIONS;
    }
  }

  /** Reservations of the endpoints of this bus at positions below i: whole slots, then the slot i is in. */
  function InSlots(bus: Bus, i: nat): nat
    requires i <= |bus.fns|
  {
    ReservedOnBus(bus, i / FUNCTIONS) + LargestReservation(bus, i - i % FUNCTIONS, i)
  }

  /** What the function at position i adds to the demand, when the demand of the bus below it is split already. */
  lemma DemandStep(bus: Bus, i: nat, below: nat)
    requires i < |bus.fns|
    requires bus.fns[i].Bridge? ==> Total(Scan, bus.fns[i].below) == below
    ensures Demand(Scan, bus, i) + Dropped(Increment(bus, i)) + Dropped(PaddingAsked(bus.fns[i])) ==
            (if bus.fns[i].Bridge? then 1 + below + PaddingAsked(bus.fns[i]) else 0) +
            InSlots(bus, i + 1) - InSlots(bus, i)
  {
    SlotStep(bus, i);
  }

  /** The running total, split by what the buses are for. */
  ghost function Split(bus: Bus, i: nat): nat
    requires i <= |bus.fns|
  {
    BridgesTo(bus, i) + PaddingTo(bus, i) + ReservedBelow(bus, i)
  }

  lemma SplitStep(bus: Bus, i: nat)
    requires i < |bus.fns|
    requires |bus.fns| == POSITIONS
    ensures bus.fns[i].Bridge? && |bus.fns[i].below.fns| == POSITIONS ==>
              var below := bus.fns[i].below;
              Split(bus, i + 1) == Split(bus, i) + 1 + PaddingAsked(bus.fns[i]) +
              Split(below, |below.fns|) + ReservedOnBus(below, |below.fns| / FUNCTIONS)
    ensures !bus.fns[i].Bridge? ==> Split(bus, i + 1) == Split(bus, i)
  {
    if bus.fns[i].Bridge? {
      var below := bus.fns[i].below;
      assert BridgesTo(bus, i + 1) == BridgesTo(bus, i) + 1 + BridgesTo(below, |below.fns|);
      assert PaddingTo(bus, i + 1) == PaddingTo(bus, i) + PaddingTo(below, |below.fns|) + PaddingAsked(bus.fns[i]);
      assert ReservedBelow(bus, i + 1) == ReservedBelow(bus, i) + Reserved(below);
    }
  }

  lemma SplitEnds(bus: Bus)
    requires |bus.fns| == POSITIONS
    ensures Split(bus, 0) == 0 && InSlots(bus, 0) == 0
    ensures InSlots(bus, |bus.fns|) == ReservedOnBus(bus, |bus.fns| / FUNCTIONS)
  {
  }

  /** What position i adds to the two running totals. */
  lemma TotalsStep(bus: Bus, i: nat)
    requires WellFormed(bus) && i < |bus.fns|
    ensures Consumed(Scan, bus, i + 1) == Consumed(Scan, bus, i) + Demand(Scan, bus, i)
    ensures DroppedTo(bus, i + 1) == DroppedTo(bus, i) + Dropped(Increment(bus, i)) + Dropped(PaddingAsked(bus.fns[i])) +
            if bus.fns[i].Bridge? then DroppedTo(bus.fns[i].below, |bus.fns[i].below.fns|) else 0
    ensures |bus.fns| == POSITIONS
    ensures bus.fns[i].Bridge? ==> WellFormed(bus.fns[i].below) && |bus.fns[i].below.fns| == POSITIONS
  {
  }

  lemma TotalsStart(bus: Bus)
    requires WellFormed(bus)
    ensures |bus.fns| == POSITIONS && Consumed(Scan, bus, 0) == 0 && DroppedTo(bus, 0) == 0
  {
  }

  lemma {:induction false} DemandSplit(bus: Bus, i: nat)
    requires WellFormed(bus)
    requires i <= |bus.fns|
    ensures Consumed(Scan, bus, i) + DroppedTo(bus, i) == Split(bus, i) + InSlots(bus, i)
    decreases bus, i
  {
    hide *;
    if i == 0 {
      TotalsStart(bus);
      SplitEnds(bus);
    } else {
      TotalsStep(bus, i - 1);
      DemandSplit(bus, i - 1);
      SplitStep(bus, i - 1);
      if bus.fns[i - 1].Bridge? {
        var below := bus.fns[i - 1].below;
        DemandSplit(below, |below.fns|);
        SplitEnds(below);
        TotalIsAll(below);
        DemandStep(bus, i - 1, Total(Scan, below));
      } else {
        DemandStep(bus, i - 1, 0);
      }
    }
  }

  lemma TotalIsAll(bus: Bus)
    ensures Total(Scan, bus) == Consumed(Scan, bus, |bus.fns|)
  {
  }

  /** What is asked for below a bus: a bus for each bridge, the padding, and each slot's largest reservation. */
  function Asked(bus: Bus): nat {
    BridgesTo(bus, |bus.fns|) + PaddingTo(bus, |bus.fns|) + Reserved(bus)
  }

  /**
    What a scan consumes, with what the 8-bit casts drop, is what is asked for. So it consumes just that exactly if every
    increment of a slot's reservation and every padding request fits 8 bits.
  */
  lemma TotalDemand(bus: Bus)
    requires WellFormed(bus)
    ensures Total(Scan, bus) + DroppedTo(bus, |bus.fns|) == Asked(bus)
    ensures Total(Scan, bus) == Asked(bus) <==> NarrowTo(bus, |bus.fns|)
    ensures !NarrowTo(bus, |bus.fns|) ==> Total(Scan, bus) + 0x100 <= Asked(bus)
  {
    DemandSplit(bus, |bus.fns|);
    DroppedNothing(bus, |bus.fns|);
  }

  /** An endpoint that reserves 256 buses is given none. */
  lemma WideReservation(bus: Bus)
    requires WellFormed(bus) && bus.fns[0] == Endpoint(false, 256)
    requires forall i :: 1 <= i < |bus.fns| ==> bus.fns[i].Absent?
    ensures Total(Scan, bus) == 0 && !NarrowTo(bus, |bus.fns|) && Asked(bus) >= 256
  {
    assert Demand(Scan, bus, 0) == 0;
    OnlyTheFirst(bus, |bus.fns|);
    assert !NarrowAt(bus, 0);
    TotalDemand(bus);
  }

  /** A bridge with 256 buses of padding to keep below it keeps none. */
  lemma WidePadding(bus: Bus, below: Bus)
    requires WellFormed(bus) && bus.fns[0] == Bridge(false, PadBelow(256), below)
    requires forall i :: 1 <= i < |bus.fns| ==> bus.fns[i].Absent?
    requires forall i :: 0 <= i < |below.fns| ==> below.fns[i].Absent?
    ensures Total(Scan, bus) == 1 && !NarrowTo(bus, |bus.fns|) && Asked(bus) >= 257
  {
    NothingBelow(below, |below.fns|);
    assert Demand(Scan, bus, 0) == 1 + Total(Scan, below);
    OnlyTheFirst(bus, |bus.fns|);
    assert !NarrowAt(bus, 0);
    TotalDemand(bus);
  }

  lemma {:induction false} OnlyTheFirst(bus: Bus, i: nat)
    requires 0 < i <= |bus.fns|
    requires forall j :: 1 <= j < |bus.fns| ==> bus.fns[j].Absent?
    ensures Consumed(Scan, bus, i) == Demand(Scan, bus, 0)
  {
    if i > 1 {
      OnlyTheFirst(bus, i - 1);
    } else {
      assert Consumed(Scan, bus, 0) == 0;
    }
  }

  lemma {:induction false} NothingBelow(bus: Bus, i: nat)
    requires i <= |bus.fns|
    requires forall j :: 0 <= j < |bus.fns| ==> bus.fns[j].Absent?
    ensures Consumed(Scan, bus, i) == 0
  {
    if i > 0 {
      NothingBelow(bus, i - 1);
    }
  }

  // ------------------------------------------------------- the two walks agree

  /** No hot-plug padding and no SR-IOV reservation anywhere. */
  ghost predicate Plain(bus: Bus)
    decreases bus
  {
    forall i :: 0 <= i < |bus.fns| ==>
      && (bus.fns[i].Endpoint? ==> bus.fns[i].reserved == 0)
      && (bus.fns[i].Bridge? ==> bus.fns[i].hotPlug.NotHotPlug? && Plain(bus.fns[i].below))
  }

  lemma {:induction false} PlainConsumed(bus: Bus, i: nat)
    requires Plain(bus)
    requires i <= |bus.fns|
    ensures Consumed(Scan, bus, i) == Consumed(Assign, bus, i)
    decreases bus, i
  {
    if i > 0 {
      PlainConsumed(bus, i - 1);
      if bus.fns[i - 1].Bridge? {
        PlainConsumed(bus.fns[i - 1].below, |bus.fns[i - 1].below.fns|);
      }
    }
  }

  lemma {:induction false} PlainOrds(bus: Bus, o: nat, x: Path, d: nat)
    requires Plain(bus) && IsBridge(bus, x, d)
    ensures PrimaryOrd(Scan, bus, o, x, d) == PrimaryOrd(Assign, bus, o, x, d)
    ensures SecondaryOrd(Scan, bus, o, x, d) == SecondaryOrd(Assign, bus, o, x, d)
    ensures SubordinateOrd(Scan, bus, o, x, d) == SubordinateOrd(Assign, bus, o, x, d)
    decreases bus
  {
    PlainConsumed(bus, x[d]);
    PlainConsumed(bus, x[d] + 1);
    if d + 1 < |x| {
      PlainOrds(bus.fns[x[d]].below, o + Consumed(Scan, bus, x[d]) + 1, x, d + 1);
    }
  }
}
