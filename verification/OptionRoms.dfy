/** Option ROMs: the window the root bridge asks for on their behalf, and the ROMs that are loaded through it. */
module OptionRoms {
  import opened PciTopology
  import opened Multiples
  import opened DeviceTree

  /** d is in the child list of b, or below something that is. */
  ghost predicate Below(devices: seq<Device>, children: seq<seq<nat>>, b: nat, d: nat)
    requires Consistent(devices, children)
    decreases d
  {
    && d < |devices|
    && devices[d].parent.Some?
    && var p := devices[d].parent.value;
    && d in children[p]
    && (p == b || Below(devices, children, b, p))
  }

  ghost predicate AtOrBelow(devices: seq<Device>, children: seq<seq<nat>>, b: nat, d: nat)
    requires Consistent(devices, children)
  {
    d == b || Below(devices, children, b, d)
  }

  lemma {:induction false} BelowIsLater(devices: seq<Device>, children: seq<seq<nat>>, b: nat, d: nat)
    requires Consistent(devices, children) && Below(devices, children, b, d)
    ensures b < d
    decreases d
  {
    var p := devices[d].parent.value;
    if p != b {
      BelowIsLater(devices, children, b, p);
    }
  }

  /** Whatever is below b is at or below one of its children. */
  lemma {:induction false} BelowEnters(devices: seq<Device>, children: seq<seq<nat>>, b: nat, d: nat) returns (i: nat)
    requires Consistent(devices, children) && Below(devices, children, b, d)
    ensures b < |children| && i < |children[b]| && AtOrBelow(devices, children, children[b][i], d)
    decreases d
  {
    var p := devices[d].parent.value;
    if p == b {
      i :| 0 <= i < |children[b]| && children[b][i] == d;
    } else {
      i := BelowEnters(devices, children, b, p);
    }
  }

  lemma {:induction false} BelowLeaves(devices: seq<Device>, children: seq<seq<nat>>, b: nat, i: nat, d: nat)
    requires Consistent(devices, children)
    requires b < |children| && i < |children[b]| && AtOrBelow(devices, children, children[b][i], d)
    ensures Below(devices, children, b, d)
    decreases d
  {
    var c := children[b][i];
    assert c in children[b];
    if d != c {
      var p := devices[d].parent.value;
      if p != c {
        BelowLeaves(devices, children, b, i, p);
      } else {
        assert Below(devices, children, b, c);
      }
    }
  }

  /** Different children of b have nothing below them in common. */
  lemma {:induction false} BranchesDisjoint(devices: seq<Device>, children: seq<seq<nat>>, b: nat, i: nat, j: nat, d: nat)
    requires Consistent(devices, children)
    requires b < |children| && i < |children[b]| && j < |children[b]| && i != j
    requires AtOrBelow(devices, children, children[b][i], d)
    ensures !AtOrBelow(devices, children, children[b][j], d)
    decreases d
  {
    var c, e := children[b][i], children[b][j];
    assert c in children[b] && e in children[b] && c != e;
    if Below(devices, children, e, d) {
      BelowIsLater(devices, children, e, d);
      if d == c {
        if Below(devices, children, e, b) {
          BelowIsLater(devices, children, e, b);
        }
      } else {
        var p := devices[d].parent.value;
        BranchesDisjoint(devices, children, b, i, j, p);
      }
    }
    if d == e && Below(devices, children, c, d) && Below(devices, children, c, b) {
      BelowIsLater(devices, children, c, b);
    }
  }

  /** The largest option ROM below a bridge. */
  method GetMaxOptionRomSize(pool: DevicePool, b: nat) returns (max: nat)
    requires pool.Valid() && b < |pool.devices|
    ensures forall d: nat :: Below(pool.devices, pool.children, b, d) ==> pool.devices[d].romSize <= max
    ensures max == 0 || exists d: nat :: Below(pool.devices, pool.children, b, d) && pool.devices[d].romSize == max
    decreases |pool.devices| - b
  {
    max := 0;
    var link := 0;
    while link < |pool.children[b]|
      invariant link <= |pool.children[b]|
      invariant forall i :: 0 <= i < link ==> RomsWithin(pool, pool.children[b][i], max)
      invariant max == 0 || exists d: nat :: Below(pool.devices, pool.children, b, d) && pool.devices[d].romSize == max
    {
      var temp := pool.children[b][link];
      assert temp in pool.children[b];
      var size := pool.devices[temp].romSize;
      BelowLeaves(pool.devices, pool.children, b, link, temp);
      if pool.children[temp] != [] {
        size := GetMaxOptionRomSize(pool, temp);
        if size != 0 {
          ghost var d: nat :| Below(pool.devices, pool.children, temp, d) && pool.devices[d].romSize == size;
          BelowLeaves(pool.devices, pool.children, b, link, d);
        }
        if pool.devices[temp].romSize > size {
          size := pool.devices[temp].romSize;
        }
      } else {
        NothingBelow(pool, temp);
      }
      assert RomsWithin(pool, temp, size);
      if size > max {
        max := size;
      }
      link := link + 1;
    }
    forall d: nat | Below(pool.devices, pool.children, b, d)
      ensures pool.devices[d].romSize <= max
    {
      var i := BelowEnters(pool.devices, pool.children, b, d);
      assert RomsWithin(pool, pool.children[b][i], max);
    }
  }

  /** No ROM of c or below it is larger than max. */
  ghost predicate RomsWithin(pool: DevicePool, c: nat, max: nat)
    requires pool.Valid()
    reads pool
  {
    forall d: nat :: AtOrBelow(pool.devices, pool.children, c, d) ==> d < |pool.devices| && pool.devices[d].romSize <= max
  }

  /** Load the option ROMs below a bridge that fit the window, each device's ROM once; `loaded` lists the devices. */
  method ProcessOptionRom(pool: DevicePool, b: nat, maxLength: nat) returns (loaded: seq<nat>)
    requires pool.Valid() && b < |pool.devices|
    ensures forall d: nat :: d in loaded <==>
              Below(pool.devices, pool.children, b, d) && 0 < pool.devices[d].romSize <= maxLength
    ensures NoDuplicates(loaded)
    decreases |pool.devices| - b
  {
    loaded := [];
    var link := 0;
    while link < |pool.children[b]|
      invariant link <= |pool.children[b]|
      invariant forall d: nat :: d in loaded <==> LoadedTo(pool, b, maxLength, link, d)
      invariant NoDuplicates(loaded)
    {
      var temp := pool.children[b][link];
      assert temp in pool.children[b];
      ghost var before := loaded;
      var below := [];
      if pool.children[temp] != [] {
        below := ProcessOptionRom(pool, temp, maxLength);
      } else {
        NothingBelow(pool, temp);
      }
      loaded := loaded + below;
      if pool.devices[temp].romSize != 0 && pool.devices[temp].romSize <= maxLength {
        loaded := loaded + [temp];
      }
      BranchLoaded(pool, b, maxLength, link, before, below, loaded);
      link := link + 1;
    }
    forall d: nat
      ensures d in loaded <==> Below(pool.devices, pool.children, b, d) && 0 < pool.devices[d].romSize <= maxLength
    {
      if Below(pool.devices, pool.children, b, d) {
        var i := BelowEnters(pool.devices, pool.children, b, d);
      }
      if LoadedTo(pool, b, maxLength, link, d) {
        var i :| 0 <= i < link && AtOrBelow(pool.devices, pool.children, pool.children[b][i], d);
        BelowLeaves(pool.devices, pool.children, b, i, d);
      }
    }
  }

  /** d is at or below one of the first `link` children of b, and its ROM fits. */
  ghost predicate LoadedTo(pool: DevicePool, b: nat, maxLength: nat, link: nat, d: nat)
    requires pool.Valid() && b < |pool.devices| && link <= |pool.children[b]|
    reads pool
  {
    && d < |pool.devices| && 0 < pool.devices[d].romSize <= maxLength
    && exists i :: 0 <= i < link && AtOrBelow(pool.devices, pool.children, pool.children[b][i], d)
  }

  lemma NothingBelow(pool: DevicePool, b: nat)
    requires pool.Valid() && b < |pool.devices| && pool.children[b] == []
    ensures forall d: nat :: !Below(pool.devices, pool.children, b, d)
  {
    forall d: nat | Below(pool.devices, pool.children, b, d)
      ensures false
    {
      var i := BelowEnters(pool.devices, pool.children, b, d);
    }
  }

  /** What one child adds to the list of loaded ROMs. */
  lemma BranchLoaded(pool: DevicePool, b: nat, maxLength: nat, link: nat, before: seq<nat>, below: seq<nat>, loaded: seq<nat>)
    requires pool.Valid() && b < |pool.devices| && link < |pool.children[b]|
    requires NoDuplicates(before) && forall d: nat :: d in before <==> LoadedTo(pool, b, maxLength, link, d)
    requires var c := pool.children[b][link];
             && c in pool.children[b]
             && NoDuplicates(below)
             && (forall d: nat :: d in below <==> Below(pool.devices, pool.children, c, d) && 0 < pool.devices[d].romSize <= maxLength)
             && loaded == before + below + if 0 < pool.devices[c].romSize <= maxLength then [c] else []
    ensures NoDuplicates(loaded)
    ensures forall d: nat :: d in loaded <==> LoadedTo(pool, b, maxLength, link + 1, d)
  {
    var c := pool.children[b][link];
    forall d: nat
      ensures d in before ==> d !in below && d != c
      ensures d in below ==> d != c
    {
      if d in before {
        var i :| 0 <= i < link && AtOrBelow(pool.devices, pool.children, pool.children[b][i], d);
        BranchesDisjoint(pool.devices, pool.children, b, i, link, d);
      }
      if d in below {
        BelowIsLater(pool.devices, pool.children, c, d);
      }
    }
    NoDuplicatesJoin(before, below);
    if 0 < pool.devices[c].romSize <= maxLength {
      NoDuplicatesJoin(before + below, [c]);
    }
    forall d: nat
      ensures d in loaded <==> LoadedTo(pool, b, maxLength, link + 1, d)
    {
      assert d in loaded <==> d in before || d in below || (d == c && 0 < pool.devices[c].romSize <= maxLength);
    }
  }

  lemma NoDuplicatesJoin(s: seq<nat>, t: seq<nat>)
    requires NoDuplicates(s) && NoDuplicates(t)
    requires forall d :: d in s ==> d !in t
    ensures NoDuplicates(s + t)
  {
    forall i, j | 0 <= i < j < |s + t|
      ensures (s + t)[i] != (s + t)[j]
    {
      assert i < |s| ==> s[i] in s;
      assert j >= |s| ==> t[j - |s|] in t;
    }
  }

  // ---------------------------------------------------------------- alignment

  /** The adjusted alignment mask of the Mem32 request: the lowest that is enough for the request and for every ROM. */
  function RomAlignment(alignment: nat, maxRom: nat): (mask: nat)
    ensures mask >= alignment && mask + 1 >= maxRom
    ensures mask == alignment || mask + 1 == maxRom
  {
    if maxRom != 0 && alignment < maxRom - 1 then maxRom - 1 else alignment
  }

  /**
    When the host bridge honours the alignment submitted for the first pass, and requests and ROM sizes are powers of
    two, every ROM of a size up to the largest is naturally aligned at the base of the window.
  */
  lemma RomsAligned(alignment: nat, maxRom: nat, base: nat, size: nat)
    requires PowerOfTwo(alignment + 1) && PowerOfTwo(maxRom) && PowerOfTwo(size)
    requires size <= maxRom
    requires base % (RomAlignment(alignment, maxRom) + 1) == 0
    ensures base % size == 0
  {
    var a := RomAlignment(alignment, maxRom) + 1;
    PowersDivide(size, a);
    DividesThrough(size, a, base);
  }
}
