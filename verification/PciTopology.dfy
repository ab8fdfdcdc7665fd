/**
  The physical PCI topology under one root bridge, the bus number registers of its PCI-to-PCI bridges, and the way
  those registers route a configuration access.

  A bus has 32 device slots of 8 functions; position `8 * device + function` names a function of the bus. A bridge is
  named by its path: the positions walked from the root bus down to it. The bus below a bridge has the bridge's path,
  and the root bus has the empty path.
*/
module PciTopology {

  type Path = seq<nat>

  type Byte = b: nat | b < 256

  const MAX_BUS: nat := 255
  const FUNCTIONS: nat := 8
  const POSITIONS: nat := 256

  datatype Option<+T> = None | Some(value: T)

  /** What the platform's hot-plug support answers for a bridge. */
  datatype HotPlug =
    | NotHotPlug
    | PaddingError
    | PadBelow(range: nat)
    | PadAtRoot(range: nat)

  datatype Function =
    | Absent
    | Endpoint(multi: bool, reserved: nat)
    | Bridge(multi: bool, hotPlug: HotPlug, below: Bus)

  datatype Bus = Bus(fns: seq<Function>)

  /** What a driver learns about a function by reading its configuration header. */
  datatype Header =
    | NoDevice
    | EndpointHeader(multi: bool, reserved: nat)
    | BridgeHeader(multi: bool, hotPlug: HotPlug)

  function HeaderOf(f: Function): Header {
    match f
    case Absent => NoDevice
    case Endpoint(multi, reserved) => EndpointHeader(multi, reserved)
    case Bridge(multi, hotPlug, _) => BridgeHeader(multi, hotPlug)
  }

  /** Functions 1 to 7 of a slot exist only beside a function 0 that says it has siblings. */
  ghost predicate WellFormed(bus: Bus)
    decreases bus
  {
    && |bus.fns| == POSITIONS
    && (forall i :: 0 <= i < |bus.fns| && bus.fns[i].Bridge? ==> WellFormed(bus.fns[i].below))
    && (forall i :: 0 <= i < |bus.fns| && SkippedBy(bus, i - i % FUNCTIONS, i) ==> bus.fns[i].Absent?)
  }

  /** Position i is a later function of the slot at position `first`, whose function 0 rules out further functions. */
  ghost predicate SkippedBy(bus: Bus, first: int, i: nat) {
    0 <= first < i && first < |bus.fns| && (bus.fns[first].Absent? || !bus.fns[first].multi)
  }

  /** x names a bridge below `bus`, where `bus` sits at path x[..d]. */
  ghost predicate IsBridge(bus: Bus, x: Path, d: nat)
    decreases bus
  {
    && d < |x|
    && x[d] < |bus.fns|
    && bus.fns[x[d]].Bridge?
    && (d + 1 < |x| ==> IsBridge(bus.fns[x[d]].below, x, d + 1))
  }

  // ---------------------------------------------------------------- registers

  /** Configuration bytes 18h to 1Bh of a bridge. */
  datatype BusRegs = BusRegs(primary: Byte, secondary: Byte, subordinate: Byte, latency: Byte)

  const ZERO_REGS := BusRegs(0, 0, 0, 0)

  type RegFile = map<Path, BusRegs>

  function At(regs: RegFile, x: Path): BusRegs {
    if x in regs then regs[x] else ZERO_REGS
  }

  ghost predicate Cleared(r: BusRegs) {
    r.primary == 0 && r.secondary == 0 && r.subordinate == 0
  }

  /** The four bytes as one little-endian 32-bit register, and back. */
  function WordOf(r: BusRegs): nat {
    r.primary + 0x100 * (r.secondary + 0x100 * (r.subordinate + 0x100 * r.latency))
  }

  function OfWord(w: nat): BusRegs {
    BusRegs(w % 0x100, w / 0x100 % 0x100, w / 0x100 / 0x100 % 0x100, w / 0x100 / 0x100 / 0x100 % 0x100)
  }

  lemma WordRoundTrip(r: BusRegs)
    ensures OfWord(WordOf(r)) == r
  {
    assert WordOf(r) / 0x100 == r.secondary + 0x100 * (r.subordinate + 0x100 * r.latency);
    assert WordOf(r) / 0x100 / 0x100 == r.subordinate + 0x100 * r.latency;
    assert WordOf(r) / 0x100 / 0x100 / 0x100 == r.latency;
  }

  /** Masking the register with FF000000h clears bytes 18h to 1Ah and keeps byte 1Bh. */
  lemma WordMask(r: BusRegs)
    ensures WordOf(r) / 0x100 % 0x100 == r.secondary
    ensures OfWord(WordOf(r) / 0x100_0000 * 0x100_0000) == BusRegs(0, 0, 0, r.latency)
  {
    WordRoundTrip(r);
    assert WordOf(r) / 0x100_0000 == r.latency;
    WordRoundTrip(BusRegs(0, 0, 0, r.latency));
  }

  // ------------------------------------------------------------------ routing

  /** A bridge passes a type 1 access on to its secondary side unchanged. */
  predicate Forwards(r: BusRegs, b: nat) {
    r.secondary < b <= r.subordinate
  }

  /** A bridge takes a type 1 access off its primary side. */
  predicate Claims(r: BusRegs, b: nat) {
    b == r.secondary || Forwards(r, b)
  }

  /** An access to bus b reaches the primary side of bridge x as a type 1 access, and x claims it. */
  ghost predicate ClaimedBy(regs: RegFile, rootNumber: nat, x: Path, b: nat) {
    && x != []
    && b != rootNumber
    && (forall k :: 0 < k < |x| ==> Forwards(At(regs, x[..k]), b))
    && Claims(At(regs, x), b)
  }

  /**
    An access to bus number b is delivered on the physical bus p and nowhere else: the bridges that claim it are
    exactly the bridges on the way to p, and the last of them has b as its secondary bus.
  */
  ghost predicate SoleRoute(root: Bus, rootNumber: nat, regs: RegFile, b: nat, p: Path) {
    && (p == [] ==> b == rootNumber)
    && (p != [] ==> b != rootNumber && IsBridge(root, p, 0) && At(regs, p).secondary == b)
    && forall x {:trigger IsBridge(root, x, 0)} ::
         IsBridge(root, x, 0) ==> (ClaimedBy(regs, rootNumber, x, b) <==> x <= p)
  }

  /**
    The walk the hardware makes for a type 1 access: the first bridge that claims it converts or forwards it. With
    more than one claimant the real bus is in contention; SoleRoute is what rules that out.
  */
  function Deliver(bus: Bus, regs: RegFile, path: Path, b: nat, i: nat): Option<(Path, Bus)>
    requires i <= |bus.fns|
    decreases bus, |bus.fns| - i
  {
    if i == |bus.fns| then None
    else if bus.fns[i].Bridge? && Claims(At(regs, path + [i]), b) then
      if b == At(regs, path + [i]).secondary then Some((path + [i], bus.fns[i].below))
      else Deliver(bus.fns[i].below, regs, path + [i], b, 0)
    else Deliver(bus, regs, path, b, i + 1)
  }

  function Target(root: Bus, rootNumber: nat, regs: RegFile, b: nat): Option<(Path, Bus)> {
    if b == rootNumber then Some(([], root)) else Deliver(root, regs, [], b, 0)
  }

  // --------------------------------------------------- nested bus number paths

  /** The interval of q lies wholly before or wholly after that of r; a cleared q lies before any r above bus 0. */
  ghost predicate Apart(q: BusRegs, r: BusRegs) {
    || (q.secondary < r.secondary && q.subordinate < r.secondary)
    || q.secondary > r.subordinate
  }

  /**
    From `at`, the bus at p[..d], the bridges along p hold nested intervals within lo..hi and keep apart from their
    siblings; p ends at `bus`, whose number is s and whose bridge forwards numbers up to h.
  */
  ghost predicate PathTo(at: Bus, regs: RegFile, p: Path, d: nat, lo: nat, hi: nat, bus: Bus, s: nat, h: nat)
    requires d <= |p|
    decreases |p| - d
  {
    if d == |p| then at == bus && lo == s && hi == h
    else
      && p[d] < |at.fns|
      && at.fns[p[d]].Bridge?
      && var r := At(regs, p[..d + 1]);
      && lo < r.secondary <= r.subordinate <= hi
      && (forall j :: 0 <= j < |at.fns| && at.fns[j].Bridge? && j != p[d] ==> Apart(At(regs, p[..d] + [j]), r))
      && PathTo(at.fns[p[d]].below, regs, p, d + 1, r.secondary, r.subordinate, bus, s, h)
  }

  /** The path to the bus being worked on, from the root bus. */
  ghost predicate Reaches(root: Bus, rootNumber: nat, regs: RegFile, p: Path, bus: Bus, s: nat, h: nat) {
    PathTo(root, regs, p, 0, rootNumber, MAX_BUS, bus, s, h)
  }

  lemma {:induction false} PathBounds(at: Bus, regs: RegFile, p: Path, d: nat, lo: nat, hi: nat, bus: Bus, s: nat, h: nat)
    requires d <= |p|
    requires PathTo(at, regs, p, d, lo, hi, bus, s, h)
    requires lo <= hi
    ensures lo <= s <= h <= hi
    ensures d < |p| ==> lo < s && At(regs, p).secondary == s && At(regs, p).subordinate == h
    ensures d < |p| ==> IsBridge(at, p, d)
    decreases |p| - d
  {
    if d < |p| {
      var r := At(regs, p[..d + 1]);
      PathBounds(at.fns[p[d]].below, regs, p, d + 1, r.secondary, r.subordinate, bus, s, h);
      if d + 1 == |p| {
        assert p[..d + 1] == p;
      }
    }
  }

  /** The hardware's walk finds the bus at the end of a nested path. */
  lemma {:induction false} PathDelivers(at: Bus, regs: RegFile, p: Path, d: nat, lo: nat, hi: nat, bus: Bus, s: nat, h: nat,
                                        i: nat)
    requires d < |p|
    requires PathTo(at, regs, p, d, lo, hi, bus, s, h)
    requires lo <= hi
    requires i <= p[d]
    ensures Deliver(at, regs, p[..d], s, i) == Some((p, bus))
    decreases |p| - d, p[d] - i
  {
    var r := At(regs, p[..d + 1]);
    var next := at.fns[p[d]].below;
    assert p[..d] + [p[d]] == p[..d + 1];
    PathBounds(next, regs, p, d + 1, r.secondary, r.subordinate, bus, s, h);
    if i < p[d] {
      PathDelivers(at, regs, p, d, lo, hi, bus, s, h, i + 1);
    } else if d + 1 == |p| {
      assert p[..d + 1] == p;
    } else {
      PathDelivers(next, regs, p, d + 1, r.secondary, r.subordinate, bus, s, h, 0);
    }
  }

  /** Along x from depth d on, every bridge passes an access to bus b on and x itself claims it. */
  ghost predicate Chain(regs: RegFile, x: Path, d: nat, b: nat) {
    && Claims(At(regs, x), b)
    && (forall k :: d < k < |x| ==> Forwards(At(regs, x[..k]), b))
  }

  /** The bridges that claim an access to the bus at the end of a nested path are the bridges on the path. */
  lemma {:induction false} PathClaims(at: Bus, regs: RegFile, p: Path, d: nat, lo: nat, hi: nat, bus: Bus, s: nat, h: nat,
                                      x: Path)
    requires d < |p|
    requires PathTo(at, regs, p, d, lo, hi, bus, s, h)
    requires lo <= hi
    requires IsBridge(at, x, d)
    requires x[..d] == p[..d]
    ensures Chain(regs, x, d, s) <==> x <= p
    decreases |p| - d
  {
    var r := At(regs, p[..d + 1]);
    var next := at.fns[p[d]].below;
    PathBounds(next, regs, p, d + 1, r.secondary, r.subordinate, bus, s, h);
    assert x[..d + 1] == p[..d] + [x[d]];
    if x[d] != p[d] {
      assert Apart(At(regs, x[..d + 1]), r);
      assert |x| == d + 1 ==> x[..d + 1] == x;
      assert !(x <= p);
    } else {
      assert x[..d + 1] == p[..d + 1];
      if |x| == d + 1 {
        assert x[..d + 1] == x;
        assert x <= p;
      } else if d + 1 == |p| {
        assert p[..d + 1] == p;
        assert !Forwards(At(regs, x[..d + 1]), s);
      } else {
        PathClaims(next, regs, p, d + 1, r.secondary, r.subordinate, bus, s, h, x);
        assert Forwards(At(regs, x[..d + 1]), s);
      }
    }
  }

  /** What a nested path is for: accesses to its last bus go there, and only there. */
  lemma RouteIsSole(root: Bus, rootNumber: nat, regs: RegFile, p: Path, bus: Bus, s: nat, h: nat)
    requires rootNumber <= MAX_BUS
    requires Reaches(root, rootNumber, regs, p, bus, s, h)
    ensures SoleRoute(root, rootNumber, regs, s, p)
    ensures Target(root, rootNumber, regs, s) == Some((p, bus))
  {
    PathBounds(root, regs, p, 0, rootNumber, MAX_BUS, bus, s, h);
    if p != [] {
      PathDelivers(root, regs, p, 0, rootNumber, MAX_BUS, bus, s, h, 0);
      assert p[..0] == [];
    }
    forall x | IsBridge(root, x, 0)
      ensures ClaimedBy(regs, rootNumber, x, s) <==> x <= p
    {
      if p != [] {
        PathClaims(root, regs, p, 0, rootNumber, MAX_BUS, bus, s, h, x);
      }
    }
  }

  /** Registers strictly below p do not matter to the path that ends at p. */
  lemma {:induction false} PathFrame(at: Bus, regs: RegFile, regs': RegFile, p: Path, d: nat, lo: nat, hi: nat,
                                     bus: Bus, s: nat, h: nat)
    requires d <= |p|
    requires PathTo(at, regs, p, d, lo, hi, bus, s, h)
    requires SameOutside(regs, regs', p)
    ensures PathTo(at, regs', p, d, lo, hi, bus, s, h)
    decreases |p| - d
  {
    if d < |p| {
      var r := At(regs, p[..d + 1]);
      assert At(regs', p[..d + 1]) == r;
      forall j: nat | j < |at.fns| && at.fns[j].Bridge? && j != p[d]
        ensures Apart(At(regs', p[..d] + [j]), r)
      {
        assert !(p < p[..d] + [j]);
      }
      PathFrame(at.fns[p[d]].below, regs, regs', p, d + 1, r.secondary, r.subordinate, bus, s, h);
    }
  }

  /** The register files differ only strictly below p. */
  ghost predicate SameOutside(regs: RegFile, regs': RegFile, p: Path) {
    forall x {:trigger At(regs', x)} :: !(p < x) ==> At(regs', x) == At(regs, x)
  }

  /** One more bridge on the path: its interval lies inside the last one and apart from its siblings. */
  lemma {:induction false} PathExtend(at: Bus, regs: RegFile, p: Path, d: nat, lo: nat, hi: nat, bus: Bus, s: nat, h: nat,
                                      i: nat)
    requires d <= |p|
    requires PathTo(at, regs, p, d, lo, hi, bus, s, h)
    requires i < |bus.fns| && bus.fns[i].Bridge?
    requires var r := At(regs, p + [i]);
             && s < r.secondary <= r.subordinate <= h
             && forall j :: 0 <= j < |bus.fns| && bus.fns[j].Bridge? && j != i ==> Apart(At(regs, p + [j]), r)
    ensures var r := At(regs, p + [i]);
            PathTo(at, regs, p + [i], d, lo, hi, bus.fns[i].below, r.secondary, r.subordinate)
    decreases |p| - d
  {
    var q := p + [i];
    var r := At(regs, q);
    if d == |p| {
      assert q[..d + 1] == q;
      assert q[..d] == p;
      assert PathTo(bus.fns[i].below, regs, q, d + 1, r.secondary, r.subordinate, bus.fns[i].below, r.secondary, r.subordinate);
    } else {
      assert q[..d + 1] == p[..d + 1] && q[..d] == p[..d];
      var t := At(regs, p[..d + 1]);
      PathExtend(at.fns[p[d]].below, regs, p, d + 1, t.secondary, t.subordinate, bus, s, h, i);
    }
  }
}
