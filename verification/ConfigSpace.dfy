/** Configuration space as the driver sees it: accesses by bus number, routed by the registers they may be changing. */
module ConfigSpace {
  import opened PciTopology

  /** One access: the bus number it carried, the physical bus the driver meant, and the registers that routed it. */
  datatype Access = Access(bus: Byte, at: Path, regs: RegFile)

  /** The accesses from one trace to a longer one were each claimed by one chain of bridges only, to the bus meant. */
  ghost predicate RoutedOver(root: Bus, rootNumber: nat, before: seq<Access>, after: seq<Access>) {
    && before <= after
    && forall k :: |before| <= k < |after| ==> SoleRoute(root, rootNumber, after[k].regs, after[k].bus, after[k].at)
  }

  /** The accesses from one trace to a longer one reached no device. */
  ghost predicate UnansweredOver(root: Bus, rootNumber: nat, before: seq<Access>, after: seq<Access>) {
    && before <= after
    && forall k :: |before| <= k < |after| ==> Target(root, rootNumber, after[k].regs, after[k].bus) == None
  }

  lemma RoutedTrans(root: Bus, rootNumber: nat, a: seq<Access>, b: seq<Access>, c: seq<Access>)
    ensures RoutedOver(root, rootNumber, a, a) && UnansweredOver(root, rootNumber, a, a)
    ensures RoutedOver(root, rootNumber, a, b) && RoutedOver(root, rootNumber, b, c) ==> RoutedOver(root, rootNumber, a, c)
    ensures UnansweredOver(root, rootNumber, a, b) && UnansweredOver(root, rootNumber, b, c) ==>
              UnansweredOver(root, rootNumber, a, c)
  {
    hide SoleRoute, Target;
  }

  class ConfigFabric {
    const root: Bus
    const rootNumber: Byte
    var regs: RegFile
    ghost var trace: seq<Access>

    constructor (root: Bus, rootNumber: Byte, regs: RegFile)
      ensures this.root == root && this.rootNumber == rootNumber && this.regs == regs && trace == []
    {
      this.root := root;
      this.rootNumber := rootNumber;
      this.regs := regs;
      trace := [];
    }

    /** Every access since the given trace was routed to the bus the driver meant, and nowhere else. */
    ghost predicate Routed(since: seq<Access>)
      reads this
    {
      RoutedOver(root, rootNumber, since, trace)
    }

    ghost predicate Faces(p: Path, bus: Bus, s: nat, h: nat)
      reads this
    {
      Reaches(root, rootNumber, regs, p, bus, s, h)
    }

    /** Read the header at position i of bus b; nobody claiming the access reads as no device. */
    method ReadHeader(b: Byte, i: nat, ghost at: Path, ghost bus: Bus, ghost h: nat) returns (header: Header)
      modifies this`trace
      ensures trace == old(trace) + [Access(b, at, regs)]
      ensures old(Faces(at, bus, b, h)) && i < |bus.fns| ==> header == HeaderOf(bus.fns[i])
      ensures Target(root, rootNumber, regs, b) == None ==>
                header == NoDevice && UnansweredOver(root, rootNumber, old(trace), trace)
      ensures old(Faces(at, bus, b, h)) ==> Routed(old(trace))
    {
      if Faces(at, bus, b, h) {
        RouteIsSole(root, rootNumber, regs, at, bus, b, h);
      }
      trace := trace + [Access(b, at, regs)];
      var target := Target(root, rootNumber, regs, b);
      header := NoDevice;
      if target.Some? && i < |target.value.1.fns| {
        header := HeaderOf(target.value.1.fns[i]);
      }
    }

    /** Read configuration dword 18h of the bridge at position i of bus b. */
    method ReadBusRegister(b: Byte, i: nat, ghost at: Path, ghost bus: Bus, ghost h: nat) returns (word: nat)
      modifies this`trace
      ensures trace == old(trace) + [Access(b, at, regs)]
      ensures old(Faces(at, bus, b, h)) && i < |bus.fns| && bus.fns[i].Bridge? ==> word == WordOf(At(regs, at + [i]))
      ensures old(Faces(at, bus, b, h)) ==> Routed(old(trace))
    {
      if Faces(at, bus, b, h) {
        RouteIsSole(root, rootNumber, regs, at, bus, b, h);
      }
      trace := trace + [Access(b, at, regs)];
      var target := Target(root, rootNumber, regs, b);
      word := 0xFFFF_FFFF;
      if target.Some? && i < |target.value.1.fns| && target.value.1.fns[i].Bridge? {
        word := WordOf(At(regs, target.value.0 + [i]));
      }
    }

    /** Write all of configuration dword 18h. */
    method WriteBusRegister(b: Byte, i: nat, word: nat, ghost at: Path, ghost bus: Bus, ghost h: nat)
      modifies this
      ensures trace == old(trace) + [Access(b, at, old(regs))]
      ensures old(Faces(at, bus, b, h)) && i < |bus.fns| && bus.fns[i].Bridge? ==>
                regs == old(regs)[at + [i] := OfWord(word)]
      ensures old(Faces(at, bus, b, h)) ==> Routed(old(trace))
    {
      if Faces(at, bus, b, h) {
        RouteIsSole(root, rootNumber, regs, at, bus, b, h);
      }
      trace := trace + [Access(b, at, regs)];
      var target := Target(root, rootNumber, regs, b);
      if target.Some? && i < |target.value.1.fns| && target.value.1.fns[i].Bridge? {
        regs := regs[target.value.0 + [i] := OfWord(word)];
      }
    }

    /** Write the 16 bits at 18h: the primary bus number below, the secondary bus number above. */
    method WriteBusNumbers(b: Byte, i: nat, word: nat, ghost at: Path, ghost bus: Bus, ghost h: nat)
      modifies this
      ensures trace == old(trace) + [Access(b, at, old(regs))]
      ensures old(Faces(at, bus, b, h)) && i < |bus.fns| && bus.fns[i].Bridge? ==>
                regs == old(regs)[at + [i] :=
                        At(old(regs), at + [i]).(primary := word % 0x100, secondary := word / 0x100 % 0x100)]
      ensures old(Faces(at, bus, b, h)) ==> Routed(old(trace))
    {
      if Faces(at, bus, b, h) {
        RouteIsSole(root, rootNumber, regs, at, bus, b, h);
      }
      trace := trace + [Access(b, at, regs)];
      var target := Target(root, rootNumber, regs, b);
      if target.Some? && i < |target.value.1.fns| && target.value.1.fns[i].Bridge? {
        var x := target.value.0 + [i];
        regs := regs[x := At(regs, x).(primary := word % 0x100, secondary := word / 0x100 % 0x100)];
      }
    }

    /** Write the byte at 1Ah, the subordinate bus number. */
    method WriteSubordinate(b: Byte, i: nat, value: Byte, ghost at: Path, ghost bus: Bus, ghost h: nat)
      modifies this
      ensures trace == old(trace) + [Access(b, at, old(regs))]
      ensures old(Faces(at, bus, b, h)) && i < |bus.fns| && bus.fns[i].Bridge? ==>
                regs == old(regs)[at + [i] := At(old(regs), at + [i]).(subordinate := value)]
      ensures old(Faces(at, bus, b, h)) ==> Routed(old(trace))
    {
      if Faces(at, bus, b, h) {
        RouteIsSole(root, rootNumber, regs, at, bus, b, h);
      }
      trace := trace + [Access(b, at, regs)];
      var target := Target(root, rootNumber, regs, b);
      if target.Some? && i < |target.value.1.fns| && target.value.1.fns[i].Bridge? {
        var x := target.value.0 + [i];
        regs := regs[x := At(regs, x).(subordinate := value)];
      }
    }
  }
}
