/** PciRootBridgeEnumerator: sort the bus ranges in place, reset, scan, report the ranges used, restore the list. */
module RootBridgeEnumerator {
  import opened AcpiDescriptors
  import opened PciTopology
  import opened ConfigSpace
  import opened BusPlan
  import opened BusNumbering
  import opened BusNumberRanges
  import BusWalk
  import BusScan
  import BusReset
  import BusReach
  import BusPaths

  /** Non-empty ranges within 0..255 of which no two share a bus number, in any order. */
  ghost predicate Disjoint(ds: seq<Descriptor>, m: nat)
    requires m <= |ds|
  {
    && (forall i :: 0 <= i < m ==> 0 < ds[i].addrLen && Last(ds[i]) <= MAX_BUS)
    && (forall i, j :: 0 <= i < m && 0 <= j < m && i != j ==>
          Last(ds[i]) < ds[j].addrRangeMin || Last(ds[j]) < ds[i].addrRangeMin)
  }

  ghost predicate SortedTo(ds: seq<Descriptor>, k: nat, m: nat)
    requires k <= m <= |ds|
  {
    forall i, j :: 0 <= i < k && i < j < m ==> ds[i].addrRangeMin <= ds[j].addrRangeMin
  }

  /** The part of a descriptor the sort moves, and the part it leaves where it is. */
  function Range(d: Descriptor): (nat, nat) {
    (d.addrRangeMin, d.addrLen)
  }

  function Rest(d: Descriptor): Descriptor {
    d.(addrRangeMin := 0, addrLen := 0)
  }

  function Ranges(ds: seq<Descriptor>): seq<(nat, nat)> {
    seq(|ds|, i requires 0 <= i < |ds| => Range(ds[i]))
  }

  /** ds' is ds with its ranges permuted among the first m descriptors, everything else field for field the same. */
  ghost predicate Rearranged(ds: seq<Descriptor>, ds': seq<Descriptor>, m: nat) {
    && |ds'| == |ds|
    && m <= |ds|
    && (forall i :: 0 <= i < |ds| ==> Rest(ds'[i]) == Rest(ds[i]))
    && (forall i :: m <= i < |ds| ==> ds'[i] == ds[i])
    && multiset(Ranges(ds'[..m])) == multiset(Ranges(ds[..m]))
  }

  lemma SwapRearranges(ds: seq<Descriptor>, ds': seq<Descriptor>, m: nat, i: nat, j: nat)
    requires i < j < m <= |ds| == |ds'|
    requires Range(ds'[i]) == Range(ds[j]) && Range(ds'[j]) == Range(ds[i])
    requires Rest(ds'[i]) == Rest(ds[i]) && Rest(ds'[j]) == Rest(ds[j])
    requires forall k :: 0 <= k < |ds| && k != i && k != j ==> ds'[k] == ds[k]
    ensures Rearranged(ds, ds', m)
  {
    var r, r' := Ranges(ds[..m]), Ranges(ds'[..m]);
    assert r' == r[i := r[j]][j := r[i]];
    SwapMultiset(r, i, j);
  }

  lemma SwapMultiset<T>(r: seq<T>, i: nat, j: nat)
    requires i < |r| && j < |r|
    ensures multiset(r[i := r[j]][j := r[i]]) == multiset(r)
  {
  }

  /** The two assignments at the end of a round of the sort. */
  method SwapRanges(ranges: array<Descriptor>, i: nat, j: nat, ghost m: nat)
    requires i < j < m < ranges.Length
    modifies ranges
    ensures Rearranged(old(ranges[..]), ranges[..], m)
    ensures Range(ranges[i]) == old(Range(ranges[j])) && Range(ranges[j]) == old(Range(ranges[i]))
    ensures forall k :: 0 <= k < ranges.Length && k != i && k != j ==> ranges[k] == old(ranges[k])
  {
    var addrRangeMin := ranges[i].addrRangeMin;
    ranges[i] := ranges[i].(addrRangeMin := ranges[j].addrRangeMin);
    ranges[j] := ranges[j].(addrRangeMin := addrRangeMin);
    var addrLen := ranges[i].addrLen;
    ranges[i] := ranges[i].(addrLen := ranges[j].addrLen);
    ranges[j] := ranges[j].(addrLen := addrLen);
    SwapRearranges(old(ranges[..]), ranges[..], m, i, j);
  }

  /** What holds whenever the first `one` ranges are in place. */
  ghost predicate SortInv(ds0: seq<Descriptor>, ds: seq<Descriptor>, one: nat, m: nat) {
    Terminated(ds, m) && Rearranged(ds0, ds, m) && one <= m && SortedTo(ds, one, m)
  }

  /** The inner loop of the sort: a range with the lowest start among those from `one` on. */
  method LowestFrom(ranges: array<Descriptor>, one: nat, ghost m: nat) returns (two: nat)
    requires Terminated(ranges[..], m) && one < m
    ensures one <= two < m
    ensures forall k :: one <= k < m ==> ranges[two].addrRangeMin <= ranges[k].addrRangeMin
  {
    ghost var ds := ranges[..];
    two := one;
    var three := one + 1;
    while ranges[three].desc != END_TAG_DESCRIPTOR
      invariant one <= two < three <= m
      invariant forall k :: one <= k < three ==> ds[two].addrRangeMin <= ds[k].addrRangeMin
      decreases m - three
    {
      if ranges[two].addrRangeMin > ranges[three].addrRangeMin {
        two := three;
      }
      three := three + 1;
      assert ranges[three] == ds[three];
    }
    assert ranges[three] == ds[three];
  }

  /** The selection sort: ascending ranges, the same ranges as before, every other field untouched. */
  method SortRanges(ranges: array<Descriptor>, ghost m: nat)
    requires Terminated(ranges[..], m)
    modifies ranges
    ensures SortInv(old(ranges[..]), ranges[..], m, m)
    ensures old(Disjoint(ranges[..], m)) ==> Disjoint(ranges[..], m) && (0 < m ==> Usable(ranges[..], m))
  {
    hide Disjoint, Rearranged, SortedTo;
    ghost var ds0 := ranges[..];
    SortStarts(ds0, m);
    var one := 0;
    while ranges[one].desc != END_TAG_DESCRIPTOR
      invariant SortInv(ds0, ranges[..], one, m)
      invariant Disjoint(ds0, m) ==> Disjoint(ranges[..], m)
      decreases m - one
    {
      ghost var before := ranges[..];
      assert before[one] == ranges[one];
      var two := LowestFrom(ranges, one, m);
      if two != one {
        SwapRanges(ranges, one, two, m);
        SwapKeeps(ds0, before, ranges[..], m, one, two);
        if Disjoint(before, m) {
          SwapDisjoint(before, ranges[..], m, one, two);
        }
      }
      SortAdvances(ds0, ranges[..], m, one);
      one := one + 1;
    }
    assert one == m;
    if Disjoint(ds0, m) {
      SortedIsUsable(ds0, ranges[..], m);
    }
  }

  lemma SortStarts(ds: seq<Descriptor>, m: nat)
    requires Terminated(ds, m)
    ensures SortInv(ds, ds, 0, m)
  {
  }

  lemma SortAdvances(ds0: seq<Descriptor>, ds: seq<Descriptor>, m: nat, one: nat)
    requires SortInv(ds0, ds, one, m) && one < m
    requires forall k :: one <= k < m ==> ds[one].addrRangeMin <= ds[k].addrRangeMin
    ensures SortInv(ds0, ds, one + 1, m)
  {
  }

  lemma SortedIsUsable(ds0: seq<Descriptor>, ds: seq<Descriptor>, m: nat)
    requires SortInv(ds0, ds, m, m) && Disjoint(ds, m)
    ensures 0 < m ==> Usable(ds, m)
  {
  }

  lemma SwapKeeps(ds0: seq<Descriptor>, ds: seq<Descriptor>, ds': seq<Descriptor>, m: nat, i: nat, j: nat)
    requires SortInv(ds0, ds, i, m) && Rearranged(ds, ds', m)
    requires i < j < m
    requires forall k :: i <= k < m ==> ds[j].addrRangeMin <= ds[k].addrRangeMin
    requires Range(ds'[i]) == Range(ds[j]) && Range(ds'[j]) == Range(ds[i])
    requires forall k :: 0 <= k < |ds| && k != i && k != j ==> ds'[k] == ds[k]
    ensures SortInv(ds0, ds', i, m)
    ensures forall k :: i <= k < m ==> ds'[i].addrRangeMin <= ds'[k].addrRangeMin
  {
    assert forall k :: 0 <= k < |ds| ==> Rest(ds'[k]).desc == ds'[k].desc && Rest(ds[k]).desc == ds[k].desc;
    assert Rearranged(ds0, ds', m);
  }

  /** Where the range at position k was before the ranges at i and j changed places. */
  function Before(k: nat, i: nat, j: nat): nat {
    if k == i then j else if k == j then i else k
  }

  lemma SwapDisjoint(ds: seq<Descriptor>, ds': seq<Descriptor>, m: nat, i: nat, j: nat)
    requires i < j < m <= |ds| == |ds'| && Disjoint(ds, m)
    requires Range(ds'[i]) == Range(ds[j]) && Range(ds'[j]) == Range(ds[i])
    requires forall k :: 0 <= k < |ds| && k != i && k != j ==> ds'[k] == ds[k]
    ensures Disjoint(ds', m)
  {
    forall k: nat | k < m
      ensures Range(ds'[k]) == Range(ds[Before(k, i, j)])
    {
    }
    forall k: nat, t: nat | k < m && t < m && k != t
      ensures Last(ds'[k]) < ds'[t].addrRangeMin || Last(ds'[t]) < ds'[k].addrRangeMin
    {
      assert Before(k, i, j) != Before(t, i, j);
    }
  }

  // ------------------------------------------------------------------ trimming

  /** The ranges up to and including bus b of the range at c: what is reported to the host bridge. */
  function Trimmed(ds: seq<Descriptor>, c: nat, b: nat): seq<Descriptor>
    requires c + 1 < |ds|
    requires ds[c].addrRangeMin <= b
  {
    ds[c := ds[c].(addrLen := b - ds[c].addrRangeMin + 1)][c + 1 := ds[c + 1].(desc := END_TAG_DESCRIPTOR)]
  }

  lemma {:induction false} FlatSame(ds: seq<Descriptor>, ds': seq<Descriptor>, j: nat)
    requires j <= |ds| && j <= |ds'| && ds[..j] == ds'[..j]
    ensures FlatTo(ds, j) == FlatTo(ds', j)
  {
    if 0 < j {
      assert ds[..j - 1] == ds[..j][..j - 1] && ds'[..j - 1] == ds'[..j][..j - 1];
      FlatSame(ds, ds', j - 1);
      assert ds[j - 1] == ds[..j][j - 1] && ds'[j - 1] == ds'[..j][j - 1];
    }
  }

  /** The trimmed list denotes exactly the available bus numbers up to the last one used, element k of the flat list. */
  lemma TrimmedDenotes(ds: seq<Descriptor>, m: nat, c: nat, k: nat)
    requires Usable(ds, m) && c < m
    requires k < |FlatTo(ds, m)|
    requires ds[c].addrRangeMin <= FlatTo(ds, m)[k] <= Last(ds[c])
    ensures c + 1 < |ds|
    ensures var t := Trimmed(ds, c, FlatTo(ds, m)[k]);
            Terminated(t, c + 1) && FlatTo(t, c + 1) == FlatTo(ds, m)[..k + 1]
  {
    hide FlatTo;
    var flat := FlatTo(ds, m);
    var b := flat[k];
    var t := Trimmed(ds, c, b);
    FlatIndex(ds, m, c, k, b);
    FlatSame(t, ds, c);
    FlatPrefix(ds, c + 1, m);
    FlatStep(t, c);
    FlatStep(ds, c);
    assert Span(t[c]) == Span(ds[c])[..b - ds[c].addrRangeMin + 1];
    assert flat[..k + 1] == FlatTo(ds, c + 1)[..k + 1];
  }

  lemma FlatStep(ds: seq<Descriptor>, j: nat)
    requires j < |ds|
    ensures FlatTo(ds, j + 1) == FlatTo(ds, j) + Span(ds[j])
  {
  }

  /** Exactly the available numbers up to b: the trimmed list as a set. */
  lemma PrefixIsUpTo(flat: seq<nat>, k: nat, b: nat)
    requires Ascending(flat) && k < |flat|
    ensures b in flat[..k + 1] <==> b in flat && b <= flat[k]
  {
    if b in flat && b <= flat[k] {
      var i :| 0 <= i < |flat| && flat[i] == b;
      assert i <= k;
      assert flat[..k + 1][i] == b;
    }
  }

  // --------------------------------------------------------------- enumeration

  datatype Result = Accepted | InvalidParameter | NoBuses | PaddingFailed | LostBit | Rejected

  /** The number of the last bus the scan and the padding at the root bridge use up, as an ordinal. */
  ghost function LastUsed(root: Bus): nat {
    Total(Scan, root) + BusScan.RootPaddingTo(root, |root.fns|) % 0x100
  }

  /**
    Beyond what the scan takes, only the bridges padded at the root bridge count: what they ask for together, cast to
    8 bits.
  */
  lemma LastUsedIs(root: Bus)
    ensures LastUsed(root) ==
            Total(Scan, root) + BusPaths.SumOver(root, 0, BusPaths.Wanted, BusPaths.PaddedAtRoot(root)) % 0x100
    ensures BusPaths.PaddedAtRoot(root) == {} ==> LastUsed(root) == Total(Scan, root)
  {
    BusPaths.RootPaddingIsSum(root);
  }

  /** Report the ranges up to bus `sub` to the host bridge, and undo the trimming afterwards. */
  method ReportBusNumbers(ranges: array<Descriptor>, sub: Byte, ghost m: nat, ghost flat: seq<nat>, ghost k: nat)
    returns (reported: seq<Descriptor>, ghost end: nat)
    requires Offers(ranges, m, flat)
    requires k < |flat| && flat[k] == sub
    modifies ranges
    ensures Terminated(reported, end) && FlatTo(reported, end) == flat[..k + 1]
    ensures forall b: nat :: b in FlatTo(reported, end) <==> b in flat && b <= sub
    ensures ranges[..] == old(ranges[..])
  {
    hide FlatTo;
    ghost var ds := ranges[..];
    FlatCovers(ds, m, sub);
    var c := 0;
    while ranges[c].addrRangeMin + ranges[c].addrLen - 1 < sub
      invariant c < m
      invariant forall j :: 0 <= j < c ==> Last(ds[j]) < sub
      decreases m - c
    {
      assert Last(ds[c]) < sub;
      c := c + 1;
    }
    assert ds[c].addrRangeMin <= sub <= Last(ds[c]);
    TrimmedDenotes(ds, m, c, k);
    var addrLen := ranges[c].addrLen;
    ranges[c] := ranges[c].(addrLen := sub - ranges[c].addrRangeMin + 1);
    var desc := ranges[c + 1].desc;
    ranges[c + 1] := ranges[c + 1].(desc := END_TAG_DESCRIPTOR);
    reported, end := ranges[..], c + 1;
    assert reported == Trimmed(ds, c, sub);
    ranges[c + 1] := ranges[c + 1].(desc := desc);
    ranges[c] := ranges[c].(addrLen := addrLen);
    assert ranges[..] == ds;
    FlatAscends(ds, m, m);
    forall b: nat
      ensures b in FlatTo(reported, end) <==> b in flat && b <= sub
    {
      PrefixIsUpTo(flat, k, b);
    }
  }

  /** What stops the enumeration of a root bridge first: its scan, or the padding set aside at the root bridge. */
  ghost function RootStop(root: Bus, len: nat): BusScan.Stop {
    match BusScan.FirstStop(root, 0, |root.fns|, len)
    case Goes => BusScan.Request(LastUsed(root), len)
    case stop => stop
  }

  /** It goes through exactly if no bridge is faulty and the buses it uses are there, as the 8-bit casts count them. */
  lemma RootGoesExactly(root: Bus, len: nat)
    requires 0 < len
    ensures RootStop(root, len) == BusScan.Goes <==> !BusScan.Faulty(root) && LastUsed(root) < len
  {
    BusScan.GoesExactly(root, 0, |root.fns|, len);
  }

  /** No bridge is faulty, and the list has room for all that is asked for, below bridges and at the root bridge. */
  ghost predicate AllIsThere(root: Bus, len: nat) {
    !BusScan.Faulty(root) && Asked(root) + BusScan.RootPaddingTo(root, |root.fns|) < len
  }

  /**
    Whatever has room for all that is asked for goes through. An enumeration that goes through has got all of it exactly
    if no cast drops any: the increments of reservations, the padding below each bridge, and the sum of the padding at
    the root bridge are all below 256.
  */
  lemma GoesAsAsked(root: Bus, flat: seq<nat>)
    requires WellFormed(root) && Ascending(flat) && flat != []
    ensures AllIsThere(root, |flat|) ==> RootStop(root, |flat|) == BusScan.Goes
    ensures RootStop(root, |flat|) == BusScan.Goes ==>
              (AllIsThere(root, |flat|) <==>
               NarrowTo(root, |root.fns|) && BusScan.RootPaddingTo(root, |root.fns|) < 0x100)
  {
    hide WellFormed, Ascending, RootStop, Total, Asked, NarrowTo, DroppedTo, BusScan.FaultyTo, BusScan.RootPaddingTo;
    RootGoesExactly(root, |flat|);
    TotalDemand(root);
    AtMostAllBuses(flat);
  }

  lemma {:induction false} AtMostAllBuses(flat: seq<nat>)
    requires Ascending(flat)
    ensures |flat| <= MAX_BUS + 1
  {
    if flat != [] {
      LastIsAtLeast(flat, |flat| - 1);
    }
  }

  lemma {:induction false} LastIsAtLeast(flat: seq<nat>, i: nat)
    requires Ascending(flat) && i < |flat|
    ensures flat[i] >= i
  {
    if i > 0 {
      LastIsAtLeast(flat, i - 1);
    }
  }

  /** A bridge that asks for 256 buses of padding at the root bridge is given none, and the enumeration goes through. */
  lemma WideRootPadding(root: Bus, below: Bus)
    requires WellFormed(root) && root.fns[0] == Bridge(false, PadAtRoot(256), below)
    requires forall i :: 1 <= i < |root.fns| ==> root.fns[i].Absent?
    requires forall i :: 0 <= i < |below.fns| ==> below.fns[i].Absent?
    ensures RootStop(root, 2) == BusScan.Goes && LastUsed(root) == 1
    ensures BusScan.RootPaddingTo(root, |root.fns|) == 256 && !AllIsThere(root, 2)
  {
    NothingBelow(below, |below.fns|);
    assert Demand(Scan, root, 0) == 1 + Total(Scan, below);
    OnlyTheFirst(root, |root.fns|);
    NoPaddingBelow(below, |below.fns|);
    OnlyTheFirstPads(root, below, |root.fns|);
    assert !BusScan.FaultyTo(below, |below.fns|);
    assert !BusScan.FaultyBridge(root, 0);
    assert !BusScan.Faulty(root);
    RootGoesExactly(root, 2);
  }

  lemma {:induction false} NoPaddingBelow(bus: Bus, i: nat)
    requires i <= |bus.fns|
    requires forall j :: 0 <= j < |bus.fns| ==> bus.fns[j].Absent?
    ensures BusScan.RootPaddingTo(bus, i) == 0
  {
    if i > 0 {
      NoPaddingBelow(bus, i - 1);
    }
  }

  lemma {:induction false} OnlyTheFirstPads(bus: Bus, below: Bus, i: nat)
    requires 0 < i <= |bus.fns| && bus.fns[0] == Bridge(false, PadAtRoot(256), below)
    requires forall j :: 1 <= j < |bus.fns| ==> bus.fns[j].Absent?
    requires BusScan.RootPaddingTo(below, |below.fns|) == 0
    ensures BusScan.RootPaddingTo(bus, i) == 256
  {
    if i > 1 {
      OnlyTheFirstPads(bus, below, i - 1);
    } else {
      assert BusScan.RootPaddingTo(bus, 0) == 0;
    }
  }

  /** How an enumeration ends and what it leaves behind, over the flat list of the sorted ranges. */
  ghost predicate Enumerated(status: Result, accepts: bool, regs: RegFile, flat: seq<nat>, root: Bus,
                             reported: seq<Descriptor>, end: nat)
  {
    if flat == [] then status == InvalidParameter
    else
      match BusScan.Verdict(flat, RootStop(root, |flat|))
      case Done =>
        && status == (if accepts then Accepted else Rejected)
        && LastUsed(root) < |flat|
        && Numbered(regs, Scan, flat, root, 0, [], |root.fns|)
        && Terminated(reported, end)
        && FlatTo(reported, end) == flat[..LastUsed(root) + 1]
        && forall b: nat :: b in FlatTo(reported, end) <==> b in flat && b <= flat[LastUsed(root)]
      case NoBuses => status == NoBuses
      case PaddingFailed => status == PaddingFailed
      case LostBit => status == LostBit
  }

  /** What is reported: the buses of the scan and the padding, over all bridges with padding at the root bridge. */
  ghost predicate ReportsAsSummed(root: Bus, flat: seq<nat>, reported: seq<Descriptor>, end: nat) {
    var scanned := Total(Scan, root);
    var padding := BusPaths.SumOver(root, 0, BusPaths.Wanted, BusPaths.PaddedAtRoot(root)) % 0x100;
    && Terminated(reported, end)
    && scanned + padding < |flat|
    && FlatTo(reported, end) == flat[..scanned + padding + 1]
    && (BusPaths.PaddedAtRoot(root) == {} ==> FlatTo(reported, end) == flat[..scanned + 1])
  }

  lemma ReportIsSummed(root: Bus, flat: seq<nat>, reported: seq<Descriptor>, end: nat)
    requires LastUsed(root) < |flat|
    requires Terminated(reported, end) && FlatTo(reported, end) == flat[..LastUsed(root) + 1]
    ensures ReportsAsSummed(root, flat, reported, end)
  {
    LastUsedIs(root);
  }

  /**
    Enumerate one root bridge over the bus ranges its host bridge offers. `accepts` is the host bridge's answer to
    SetBusNumbers. `end` closes the list reported to it.
  */
  method PciRootBridgeEnumerator(fabric: ConfigFabric, ranges: array<Descriptor>, accepts: bool, uninitialised: bool,
                                 ghost m: nat)
    returns (status: Result, reported: seq<Descriptor>, ghost flat: seq<nat>, ghost end: nat)
    requires WellFormed(fabric.root)
    requires Nested(fabric.regs, fabric.root, [], fabric.rootNumber, MAX_BUS)
    requires Terminated(ranges[..], m) && Disjoint(ranges[..], m)
    requires 0 < m ==> exists i :: 0 <= i < m && ranges[i].addrRangeMin == fabric.rootNumber
    requires forall i :: 0 <= i < m ==> fabric.rootNumber <= ranges[i].addrRangeMin
    modifies fabric, ranges
    ensures fabric.Routed(old(fabric.trace))
    ensures SameLatency(old(fabric.regs), fabric.regs)
    ensures SortInv(old(ranges[..]), ranges[..], m, m) && Disjoint(ranges[..], m)
    ensures flat == FlatTo(ranges[..], m)
    ensures Enumerated(status, accepts, fabric.regs, flat, fabric.root, reported, end)
    ensures status == Accepted || status == Rejected ==> ReportsAsSummed(fabric.root, flat, reported, end)
  {
    hide Disjoint, Nested, SortedTo, Rearranged, RoutedOver, Numbered, ReportsAsSummed;
    reported, flat, end := [], [], 0;
    if ranges[0].desc == END_TAG_DESCRIPTOR {
      SortStarts(ranges[..], m);
      RoutedTrans(fabric.root, fabric.rootNumber, fabric.trace, fabric.trace, fabric.trace);
      BusWalk.SameTrans(fabric.regs, fabric.regs, fabric.regs, []);
      return InvalidParameter, reported, flat, end;
    }
    SortRanges(ranges, m);
    flat := FlatTo(ranges[..], m);
    LowestFirst(old(ranges[..]), ranges[..], m, fabric.rootNumber);
    var start: Byte := ToUint8(ranges[0].addrRangeMin);
    var outcome, sub := NumberBuses(fabric, ranges, start, uninitialised, m, flat);
    match outcome {
      case NoBuses => status := NoBuses;
      case PaddingFailed => status := PaddingFailed;
      case LostBit => status := LostBit;
      case Done =>
        reported, end := ReportBusNumbers(ranges, sub, m, flat, LastUsed(fabric.root));
        ReportIsSummed(fabric.root, flat, reported, end);
        status := if accepts then Accepted else Rejected;
    }
  }

  /** Reset, scan, and set aside the padding of the root bridge. */
  method NumberBuses(fabric: ConfigFabric, ranges: array<Descriptor>, start: Byte, uninitialised: bool,
                     ghost m: nat, ghost flat: seq<nat>)
    returns (outcome: BusScan.Outcome, sub: Byte)
    requires WellFormed(fabric.root)
    requires Nested(fabric.regs, fabric.root, [], fabric.rootNumber, MAX_BUS)
    requires Offers(ranges, m, flat) && flat != [] && flat[0] == fabric.rootNumber == start
    modifies fabric
    ensures fabric.Routed(old(fabric.trace)) && SameLatency(old(fabric.regs), fabric.regs)
    ensures outcome == BusScan.Verdict(flat, RootStop(fabric.root, |flat|))
    ensures outcome == BusScan.Done ==>
              && LastUsed(fabric.root) < |flat|
              && Numbered(fabric.regs, Scan, flat, fabric.root, 0, [], |fabric.root.fns|)
              && sub == flat[LastUsed(fabric.root)]
  {
    hide Offers, Nested, WellFormed, RoutedOver, BusScan.FaultyTo, BusScan.RootPaddingTo, Numbered, BusScan.FirstStop;
    ghost var regs0, trace0 := fabric.regs, fabric.trace;
    BusReset.ResetAllPpbBusNumber(fabric, start, uninitialised, true, [], fabric.root, MAX_BUS);
    ScanReady(fabric, flat);
    ghost var regs1, trace1 := fabric.regs, fabric.trace;
    BusScan.GoesExactly(fabric.root, 0, |fabric.root.fns|, |flat|);
    var pad;
    outcome, sub, pad := BusScan.PciScanBus(fabric, ranges, start, start, 0, m, flat, 0, [], fabric.root);
    BusWalk.SameTrans(regs0, regs1, fabric.regs, []);
    RoutedTrans(fabric.root, fabric.rootNumber, trace0, trace1, fabric.trace);
    if outcome.Done? {
      outcome, sub := BusScan.Reserve(ranges, sub, pad, m, flat, Total(Scan, fabric.root));
    }
  }

  /** The scan starts on the lowest bus number, and nothing is numbered yet. */
  lemma ScanReady(fabric: ConfigFabric, flat: seq<nat>)
    requires flat != [] && flat[0] == fabric.rootNumber
    requires ClearedFrom(fabric.regs, fabric.root, [], 0)
    ensures BusScan.Scanned(fabric, flat, 0, [], fabric.root, 0, flat[0])
  {
  }

  /** The lowest range comes first, so the flat list starts with the root bus. */
  lemma LowestFirst(ds0: seq<Descriptor>, ds: seq<Descriptor>, m: nat, lowest: nat)
    requires 0 < m && SortInv(ds0, ds, m, m) && ds[0].addrLen > 0
    requires exists i :: 0 <= i < m && ds0[i].addrRangeMin == lowest
    requires forall i :: 0 <= i < m ==> lowest <= ds0[i].addrRangeMin
    ensures ds[0].addrRangeMin == lowest
    ensures FlatTo(ds, m) != [] && FlatTo(ds, m)[0] == lowest
  {
    var r0, r := Ranges(ds0[..m]), Ranges(ds[..m]);
    var i :| 0 <= i < m && ds0[i].addrRangeMin == lowest;
    assert r0[i] in multiset(r);
    var j :| 0 <= j < m && r[j] == r0[i];
    assert ds[0].addrRangeMin <= lowest;
    assert r[0] in multiset(r0);
    var k :| 0 <= k < m && r0[k] == r[0];
    FlatAt(ds, m, 0, 0);
  }

  /** Two ascending lists of the same numbers are the same list. */
  lemma {:induction false} AscendingUnique(f: seq<nat>, g: seq<nat>)
    requires Ascending(f) && Ascending(g)
    requires forall b :: b in f <==> b in g
    ensures f == g
    decreases |f|
  {
    var least := if g == [] then 0 else g[0];
    assert g != [] ==> least in g;
    if f != [] {
      assert f[0] in g && g[0] in f;
      assert f[0] == g[0];
      forall b
        ensures b in f[1..] <==> b in g[1..]
      {
        assert b in f[1..] <==> b in f && b != f[0];
        assert b in g[1..] <==> b in g && b != g[0];
      }
      AscendingUnique(f[1..], g[1..]);
      assert f == [f[0]] + f[1..] && g == [g[0]] + g[1..];
    }
  }

  /** However the host bridge orders its ranges, the sorted list denotes the same flat list. */
  lemma SameRangesSameList(ds: seq<Descriptor>, m: nat, ds': seq<Descriptor>, m': nat)
    requires Usable(ds, m) && Usable(ds', m')
    requires multiset(Ranges(ds[..m])) == multiset(Ranges(ds'[..m']))
    ensures FlatTo(ds, m) == FlatTo(ds', m')
  {
    FlatAscends(ds, m, m);
    FlatAscends(ds', m', m');
    forall b: nat
      ensures b in FlatTo(ds, m) <==> b in FlatTo(ds', m')
    {
      if b in FlatTo(ds, m) {
        InSameRange(ds, m, ds', m', b);
      }
      if b in FlatTo(ds', m') {
        InSameRange(ds', m', ds, m, b);
      }
    }
    AscendingUnique(FlatTo(ds, m), FlatTo(ds', m'));
  }

  lemma InSameRange(ds: seq<Descriptor>, m: nat, ds': seq<Descriptor>, m': nat, b: nat)
    requires m <= |ds| && m' <= |ds'|
    requires multiset(Ranges(ds[..m])) == multiset(Ranges(ds'[..m']))
    requires b in FlatTo(ds, m)
    ensures b in FlatTo(ds', m')
  {
    FlatCovers(ds, m, b);
    var j :| 0 <= j < m && ds[j].addrRangeMin <= b <= Last(ds[j]);
    assert Ranges(ds[..m])[j] in multiset(Ranges(ds'[..m']));
    var k :| 0 <= k < m' && Ranges(ds'[..m'])[k] == Ranges(ds[..m])[j];
    FlatAt(ds', m', k, b - ds'[k].addrRangeMin);
  }

  /** The plan and the latency bytes fix the registers of every bridge. */
  lemma SameNumbering(first: RegFile, second: RegFile, flat: seq<nat>, root: Bus)
    requires Numbered(first, Scan, flat, root, 0, [], |root.fns|)
    requires Numbered(second, Scan, flat, root, 0, [], |root.fns|)
    requires SameLatency(first, second)
    ensures forall x {:trigger IsBridge(root, x, 0)} :: IsBridge(root, x, 0) ==> At(second, x) == At(first, x)
  {
    forall x | IsBridge(root, x, 0)
      ensures At(second, x) == At(first, x)
    {
      assert [] < x;
      assert NumberedAs(At(first, x), Scan, flat, root, 0, x, 0);
      assert NumberedAs(At(second, x), Scan, flat, root, 0, x, 0);
    }
  }

  /** The same ranges in another order start at the same lowest number. */
  lemma SameLowest(ds: seq<Descriptor>, m: nat, ds': seq<Descriptor>, m': nat, lowest: nat)
    requires m <= |ds| && m' <= |ds'|
    requires multiset(Ranges(ds[..m])) == multiset(Ranges(ds'[..m']))
    requires exists i :: 0 <= i < m && ds[i].addrRangeMin == lowest
    requires forall i :: 0 <= i < m ==> lowest <= ds[i].addrRangeMin
    ensures exists i :: 0 <= i < m' && ds'[i].addrRangeMin == lowest
    ensures forall i :: 0 <= i < m' ==> lowest <= ds'[i].addrRangeMin
  {
    var r, r' := Ranges(ds[..m]), Ranges(ds'[..m']);
    var i :| 0 <= i < m && ds[i].addrRangeMin == lowest;
    assert r[i] in multiset(r');
    var j :| 0 <= j < m' && r'[j] == r[i];
    forall k | 0 <= k < m'
      ensures lowest <= ds'[k].addrRangeMin
    {
      assert r'[k] in multiset(r);
      var t :| 0 <= t < m && r[t] == r'[k];
    }
  }

  /**
    The hot-plug flow of PciHostBridgeEnumerator for one root bridge: enumerate, reset, enumerate again. `again` is what
    the host bridge lists the second time: the same ranges, in any order. The reset starts from the first of them as
    listed: it clears the bridges below the bus with that number, so that it clears every bridge exactly if the lowest
    range comes first or there is no bridge. Whatever it clears, a second enumeration that is accepted brings every
    register of every bridge back.
  */
  method EnumerateTwice(fabric: ConfigFabric, ranges: array<Descriptor>, again: array<Descriptor>,
                        accepts1: bool, accepts2: bool, uninitialised: bool, ghost m: nat, ghost m': nat)
    returns (status1: Result, status2: Result, ghost first: RegFile, ghost between: RegFile, ghost start: nat,
             ghost trace1: seq<Access>, ghost trace2: seq<Access>)
    requires WellFormed(fabric.root) && ranges != again
    requires Nested(fabric.regs, fabric.root, [], fabric.rootNumber, MAX_BUS)
    requires Terminated(ranges[..], m) && Disjoint(ranges[..], m) && 0 < m
    requires Terminated(again[..], m') && Disjoint(again[..], m') && 0 < m'
    requires multiset(Ranges(ranges[..][..m])) == multiset(Ranges(again[..][..m']))
    requires exists i :: 0 <= i < m && ranges[i].addrRangeMin == fabric.rootNumber
    requires forall i :: 0 <= i < m ==> fabric.rootNumber <= ranges[i].addrRangeMin
    modifies fabric, ranges, again
    ensures start == old(again[0].addrRangeMin)
    ensures RoutedOver(fabric.root, fabric.rootNumber, old(fabric.trace), trace1)
    ensures status1 != Accepted ==> status2 == status1 && fabric.trace == trace1
    ensures status1 == Accepted ==>
              && m <= ranges.Length && BusReach.Complete(first, FlatTo(ranges[..], m), fabric.root, fabric.rootNumber)
              && SameLatency(old(fabric.regs), first)
    ensures status1 == Accepted ==>
              && status2 == (if accepts2 then Accepted else Rejected)
              && Between(fabric.root, fabric.rootNumber, first, between, start, trace1, trace2)
              && RoutedOver(fabric.root, fabric.rootNumber, trace2, fabric.trace)
              && forall x {:trigger IsBridge(fabric.root, x, 0)} :: IsBridge(fabric.root, x, 0) ==>
                   At(fabric.regs, x) == At(first, x)
  {
    hide FlatTo, Numbered, Nested, ClearedFrom, WellFormed, Disjoint, SortedTo, Usable, RoutedOver, Between;
    start := again[0].addrRangeMin;
    ghost var flat, end;
    var reported;
    status1, reported, flat, end := PciRootBridgeEnumerator(fabric, ranges, accepts1, uninitialised, m);
    status2 := status1;
    first, between, trace1, trace2 := fabric.regs, fabric.regs, fabric.trace, fabric.trace;
    if status1 == Accepted {
      SortedIsUsable(old(ranges[..]), ranges[..], m);
      SameLowest(old(ranges[..]), m, again[..], m', fabric.rootNumber);
      FirstIsComplete(old(ranges[..]), ranges[..], m, fabric.rootNumber, first, fabric.root, status1, reported, end);
      assert multiset(Ranges(ranges[..][..m])) == multiset(Ranges(again[..][..m']));
      status2, between, trace2 := ResetAndRepeat(fabric, again, accepts2, uninitialised, m', ranges[..], m, start);
    }
  }

  /** What the reset between the two enumerations does, from bus number `start`. */
  ghost predicate Between(root: Bus, rootNumber: nat, regs: RegFile, regs': RegFile, start: nat, trace1: seq<Access>,
                          trace2: seq<Access>)
  {
    && BusReach.ResetFromBus(root, rootNumber, regs, regs', start)
    && (ClearedFrom(regs', root, [], 0) <==> start == rootNumber || !BusReach.HasBridges(root))
    && if BusReach.Answers(root, rootNumber, regs, start) then RoutedOver(root, rootNumber, trace1, trace2)
       else UnansweredOver(root, rootNumber, trace1, trace2)
  }

  /** An accepted enumeration is a finished numbering. */
  lemma FirstIsComplete(ds0: seq<Descriptor>, ds: seq<Descriptor>, m: nat, rootNumber: nat, regs: RegFile, root: Bus,
                        status: Result, reported: seq<Descriptor>, end: nat)
    requires 0 < m && SortInv(ds0, ds, m, m) && Usable(ds, m)
    requires exists i :: 0 <= i < m && ds0[i].addrRangeMin == rootNumber
    requires forall i :: 0 <= i < m ==> rootNumber <= ds0[i].addrRangeMin
    requires status == Accepted && exists accepts :: Enumerated(status, accepts, regs, FlatTo(ds, m), root, reported, end)
    ensures BusReach.Complete(regs, FlatTo(ds, m), root, rootNumber)
    ensures LastUsed(root) < |FlatTo(ds, m)| && RootStop(root, |FlatTo(ds, m)|) == BusScan.Goes
  {
    hide Numbered, Usable, SortedTo, Rearranged;
    UsableFacts(ds, m);
    LowestFirst(ds0, ds, m, rootNumber);
  }

  lemma UsableFacts(ds: seq<Descriptor>, m: nat)
    requires Usable(ds, m)
    ensures 0 < m <= |ds| && ds[0].addrLen > 0 && Ascending(FlatTo(ds, m))
  {
    FlatAscends(ds, m, m);
  }

  /** The second half of the hot-plug flow: `ds` is the sorted list of the first enumeration. */
  method ResetAndRepeat(fabric: ConfigFabric, again: array<Descriptor>, accepts: bool, uninitialised: bool, ghost m': nat,
                        ghost ds: seq<Descriptor>, ghost m: nat, ghost start: nat)
    returns (status: Result, ghost between: RegFile, ghost trace2: seq<Access>)
    requires WellFormed(fabric.root)
    requires Terminated(again[..], m') && Disjoint(again[..], m') && 0 < m' && start == again[0].addrRangeMin
    requires exists i :: 0 <= i < m' && again[i].addrRangeMin == fabric.rootNumber
    requires forall i :: 0 <= i < m' ==> fabric.rootNumber <= again[i].addrRangeMin
    requires Usable(ds, m) && multiset(Ranges(ds[..m])) == multiset(Ranges(again[..][..m']))
    requires BusReach.Complete(fabric.regs, FlatTo(ds, m), fabric.root, fabric.rootNumber)
    requires LastUsed(fabric.root) < |FlatTo(ds, m)| && RootStop(fabric.root, |FlatTo(ds, m)|) == BusScan.Goes
    modifies fabric, again
    ensures status == (if accepts then Accepted else Rejected)
    ensures Between(fabric.root, fabric.rootNumber, old(fabric.regs), between, start, old(fabric.trace), trace2)
    ensures RoutedOver(fabric.root, fabric.rootNumber, trace2, fabric.trace)
    ensures forall x {:trigger IsBridge(fabric.root, x, 0)} :: IsBridge(fabric.root, x, 0) ==>
              At(fabric.regs, x) == At(old(fabric.regs), x)
  {
    hide FlatTo, Numbered, Nested, WellFormed, Disjoint, SortedTo, Usable, BusScan.FaultyTo, BusScan.RootPaddingTo,
         RoutedOver, UnansweredOver, BusReach.ResetFromBus, BusReach.Answers, ClearedFrom;
    ghost var first := fabric.regs;
    UsableFacts(ds, m);
    RangeIsSmall(again[..], m', 0);
    var number: Byte := ToUint8(again[0].addrRangeMin);
    BusReach.ResetBetween(fabric, number, uninitialised, FlatTo(ds, m));
    between, trace2 := fabric.regs, fabric.trace;
    ghost var flat, end;
    var reported;
    status, reported, flat, end := PciRootBridgeEnumerator(fabric, again, accepts, uninitialised, m');
    SortedIsUsable(old(again[..]), again[..], m');
    SortedKeepsRanges(old(again[..]), again[..], m');
    SameRangesSameList(ds, m, again[..], m');
    BusWalk.SameTrans(first, between, fabric.regs, []);
    SameNumbering(first, fabric.regs, flat, fabric.root);
  }

  lemma RangeIsSmall(ds: seq<Descriptor>, m: nat, i: nat)
    requires m <= |ds| && Disjoint(ds, m) && i < m
    ensures ds[i].addrRangeMin <= MAX_BUS
  {
  }

  lemma SortedKeepsRanges(ds0: seq<Descriptor>, ds: seq<Descriptor>, m: nat)
    requires SortInv(ds0, ds, m, m)
    ensures m <= |ds0| && m <= |ds|
    ensures multiset(Ranges(ds[..m])) == multiset(Ranges(ds0[..m]))
  {
  }
}
