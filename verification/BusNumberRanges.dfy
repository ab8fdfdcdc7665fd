/** The bus numbers a root bridge may hand out: a list of possibly gapped ranges, walked as if it were flat. */
module BusNumberRanges {
  import opened AcpiDescriptors
  import opened PciTopology

  datatype Status = Success | OutOfResources

  function Span(d: Descriptor): (s: seq<nat>)
    ensures |s| == d.addrLen
  {
    seq(d.addrLen, i requires 0 <= i => d.addrRangeMin + i)
  }

  /** The bus numbers of the first j ranges, in order. */
  function FlatTo(ds: seq<Descriptor>, j: nat): seq<nat>
    requires j <= |ds|
  {
    if j == 0 then [] else FlatTo(ds, j - 1) + Span(ds[j - 1])
  }

  /** Non-empty ranges within 0..255, ascending and disjoint, closed by an end tag. */
  ghost predicate Usable(ds: seq<Descriptor>, m: nat) {
    && Terminated(ds, m)
    && 0 < m
    && (forall i :: 0 <= i < m ==> 0 < ds[i].addrLen && Last(ds[i]) <= MAX_BUS)
    && (forall i, j :: 0 <= i < j < m ==> Last(ds[i]) < ds[j].addrRangeMin)
  }

  /** The ranges in memory denote the flat list. */
  ghost predicate Offers(ranges: array<Descriptor>, m: nat, flat: seq<nat>)
    reads ranges
  {
    Usable(ranges[..], m) && flat == FlatTo(ranges[..], m)
  }

  function Last(d: Descriptor): int {
    d.addrRangeMin + d.addrLen - 1
  }

  lemma {:induction false} FlatPrefix(ds: seq<Descriptor>, i: nat, j: nat)
    requires i <= j <= |ds|
    ensures FlatTo(ds, i) <= FlatTo(ds, j)
  {
    if i < j {
      FlatPrefix(ds, i, j - 1);
    }
  }

  /** Where range j sits in the flat list. */
  lemma FlatAt(ds: seq<Descriptor>, m: nat, j: nat, t: nat)
    requires j < m <= |ds|
    requires t < ds[j].addrLen
    ensures |FlatTo(ds, j)| + t < |FlatTo(ds, m)|
    ensures FlatTo(ds, m)[|FlatTo(ds, j)| + t] == ds[j].addrRangeMin + t
  {
    FlatPrefix(ds, j + 1, m);
    assert FlatTo(ds, j + 1)[|FlatTo(ds, j)| + t] == Span(ds[j])[t];
  }

  /** The flat list ascends strictly and ends with the last number of the last range. */
  lemma {:induction false} FlatAscends(ds: seq<Descriptor>, m: nat, j: nat)
    requires Usable(ds, m)
    requires j <= m
    ensures forall a, b :: 0 <= a < b < |FlatTo(ds, j)| ==> FlatTo(ds, j)[a] < FlatTo(ds, j)[b]
    ensures 0 < j ==> FlatTo(ds, j) != [] && FlatTo(ds, j)[|FlatTo(ds, j)| - 1] == Last(ds[j - 1])
    ensures forall a :: 0 <= a < |FlatTo(ds, j)| ==> ds[0].addrRangeMin <= FlatTo(ds, j)[a] <= MAX_BUS
  {
    if 0 < j {
      FlatAscends(ds, m, j - 1);
      var f, g := FlatTo(ds, j - 1), Span(ds[j - 1]);
      assert forall a :: 0 <= a < |g| ==> g[a] == ds[j - 1].addrRangeMin + a;
      assert 1 < j ==> f[|f| - 1] < ds[j - 1].addrRangeMin;
      assert forall a :: 0 <= a < |f| ==> f[a] <= f[|f| - 1];
    }
  }

  /** Element n is in the flat list at most once, and in the range that contains it. */
  lemma FlatIndex(ds: seq<Descriptor>, m: nat, j: nat, k: nat, b: nat)
    requires Usable(ds, m)
    requires j < m
    requires ds[j].addrRangeMin <= b <= Last(ds[j])
    requires k < |FlatTo(ds, m)| && FlatTo(ds, m)[k] == b
    ensures k == |FlatTo(ds, j)| + (b - ds[j].addrRangeMin)
  {
    FlatAt(ds, m, j, b - ds[j].addrRangeMin);
    FlatAscends(ds, m, m);
  }

  lemma {:induction false} FlatCovers(ds: seq<Descriptor>, m: nat, b: nat)
    requires m <= |ds|
    requires b in FlatTo(ds, m)
    ensures exists j :: 0 <= j < m && ds[j].addrRangeMin <= b <= Last(ds[j])
  {
    if b in Span(ds[m - 1]) {
      assert ds[m - 1].addrRangeMin <= b <= Last(ds[m - 1]);
    } else {
      FlatCovers(ds, m - 1, b);
    }
  }

  /**
    The number the walk is looking for when it stands at range j, before any cast: what is left of the request,
    counted from the start of range j.
  */
  ghost function Running(ds: seq<Descriptor>, j: nat, n: nat): int
    requires j < |ds|
  {
    ds[j].addrRangeMin + n - |FlatTo(ds, j)|
  }

  lemma {:induction false} RunningGrows(ds: seq<Descriptor>, m: nat, i: nat, j: nat, n: nat)
    requires Usable(ds, m)
    requires i <= j < m
    ensures Running(ds, i, n) <= Running(ds, j, n)
  {
    if i < j {
      RunningGrows(ds, m, i, j - 1, n);
      assert |FlatTo(ds, j)| == |FlatTo(ds, j - 1)| + ds[j - 1].addrLen;
      assert Last(ds[j - 1]) < ds[j].addrRangeMin;
    }
  }

  /** The request for element n of a list of len numbers ending with last runs past bus 255 in an 8-bit counter. */
  predicate Overruns(last: int, len: nat, n: nat) {
    n >= len && last + 1 + (n - len) > MAX_BUS
  }

  /** The (UINT8) cast. */
  function ToUint8(x: nat): (r: Byte)
    ensures x < 0x100 ==> r == x
    ensures 0x100 <= x < 0x200 ==> r == x - 0x100
  {
    x % 0x100
  }

  /** How the running number moves from one range to the next. */
  lemma RunningStep(ds: seq<Descriptor>, m: nat, r: nat, n: nat)
    requires Usable(ds, m)
    requires r + 1 < m
    ensures Running(ds, r + 1, n) == Running(ds, r, n) + (ds[r + 1].addrRangeMin - (Last(ds[r]) + 1))
    ensures |FlatTo(ds, r + 1)| == |FlatTo(ds, r)| + ds[r].addrLen
  {
  }

  /** What the running number says about element n when the walk stands at range r. */
  lemma RunningDecides(ds: seq<Descriptor>, m: nat, r: nat, n: nat)
    requires Usable(ds, m)
    requires r < m
    requires |FlatTo(ds, r)| <= n
    ensures Running(ds, r, n) <= Last(ds[r]) ==> n < |FlatTo(ds, m)| && FlatTo(ds, m)[n] == Running(ds, r, n)
    ensures Running(ds, r, n) > Last(ds[r]) ==> n >= |FlatTo(ds, r + 1)|
    ensures Running(ds, r, n) > MAX_BUS ==> n >= |FlatTo(ds, m)|
    ensures n >= |FlatTo(ds, m)| ==> Running(ds, r, n) <= Last(ds[m - 1]) + 1 + (n - |FlatTo(ds, m)|)
    ensures r + 1 == m ==> Running(ds, r, n) == Last(ds[r]) + 1 + (n - |FlatTo(ds, m)|)
  {
    assert |FlatTo(ds, r + 1)| == |FlatTo(ds, r)| + ds[r].addrLen;
    assert |FlatTo(ds, m)| == |FlatTo(ds, m - 1)| + ds[m - 1].addrLen;
    if Running(ds, r, n) <= Last(ds[r]) {
      FlatAt(ds, m, r, n - |FlatTo(ds, r)|);
    }
    RunningGrows(ds, m, r, m - 1, n);
  }

  /**
    The walk once the range of `start` is known: go on to later ranges until the running number falls inside one.
    The casts to 8 bits are written out; `lost` says that one of them dropped a bit.
  */
  method AdvanceFrom(ranges: array<Descriptor>, first: nat, start: Byte, count: Byte, ghost m: nat)
    returns (status: Status, next: Byte, lost: bool)
    requires Usable(ranges[..], m)
    requires first < m && ranges[first].addrRangeMin <= start <= Last(ranges[first])
    ensures var flat := FlatTo(ranges[..], m);
            var n := |FlatTo(ranges[..], first)| + (start - ranges[first].addrRangeMin) + count;
            Resolved(ranges[..], m, n, start, status, next, lost)
  {
    hide FlatTo;
    ghost var ds := ranges[..];
    ghost var n := |FlatTo(ds, first)| + (start - ds[first].addrRangeMin) + count;
    var r := first;
    var max := ranges[r].addrRangeMin + ranges[r].addrLen - 1;
    var number: Byte := ToUint8(start + count);
    lost := start + count >= 0x100;
    RunningDecides(ds, m, r, n);
    while number > max
      invariant first <= r < m && max == Last(ds[r])
      invariant |FlatTo(ds, r)| <= n
      invariant lost ==> number <= max && Running(ds, r, n) == number + 0x100
      invariant !lost ==> number == Running(ds, r, n)
      decreases m - r
    {
      RunningDecides(ds, m, r, n);
      r := r + 1;
      assert ranges[r] == ds[r];
      if ranges[r].desc == END_TAG_DESCRIPTOR {
        assert r == m;
        return OutOfResources, start, false;
      }
      RunningStep(ds, m, r - 1, n);
      assert 0 <= ds[r].addrRangeMin - (Last(ds[r - 1]) + 1) <= ds[r].addrRangeMin <= Last(ds[r]) <= MAX_BUS;
      var sum := number + (ranges[r].addrRangeMin - (max + 1));
      lost := sum >= 0x100;
      number := ToUint8(sum);
      max := ranges[r].addrRangeMin + ranges[r].addrLen - 1;
    }
    RunningDecides(ds, m, r, n);
    return Success, number, lost;
  }

  /** What asking for element n of the flat list must answer, and what it does answer. */
  ghost predicate Resolved(ds: seq<Descriptor>, m: nat, n: nat, start: Byte, status: Status, next: Byte, lost: bool)
    requires 0 < m <= |ds|
  {
    var flat := FlatTo(ds, m);
    && (lost <==> Overruns(Last(ds[m - 1]), |flat|, n))
    && (n < |flat| ==> status == Success && next == flat[n])
    && (n >= |flat| && !lost ==> status == OutOfResources && next == start)
    && (lost ==> status == Success && Wrapped(ds, m, n, next))
  }

  /** The answer is what 8 bits keep of the running number at some range of the walk. */
  ghost predicate Wrapped(ds: seq<Descriptor>, m: nat, n: nat, next: Byte)
    requires m <= |ds|
  {
    exists r: nat :: r < m && |FlatTo(ds, r)| <= n && Running(ds, r, n) == next + 0x100
  }

  /**
    Hand out `count` bus numbers after `start`: the walk over the ranges is a walk over the flat list. It answers
    wrongly exactly when the running number leaves 8 bits, and then it claims success.
  */
  method PciAllocateBusNumber(ranges: array<Descriptor>, start: Byte, count: Byte, ghost m: nat)
    returns (status: Status, next: Byte, lost: bool)
    requires Usable(ranges[..], m)
    ensures start !in FlatTo(ranges[..], m) ==> status == OutOfResources && next == start && !lost
    ensures forall k {:trigger FlatTo(ranges[..], m)[k]} ::
              0 <= k < |FlatTo(ranges[..], m)| && FlatTo(ranges[..], m)[k] == start ==>
                Resolved(ranges[..], m, k + count, start, status, next, lost)
  {
    ghost var ds := ranges[..];
    ghost var flat := FlatTo(ds, m);
    var r := 0;
    while ranges[r].desc != END_TAG_DESCRIPTOR
      invariant r <= m
      invariant forall j :: 0 <= j < r ==> !(ds[j].addrRangeMin <= start <= Last(ds[j]))
      decreases m - r
    {
      var max := ranges[r].addrRangeMin + ranges[r].addrLen - 1;
      if ranges[r].addrRangeMin <= start <= max {
        status, next, lost := AdvanceFrom(ranges, r, start, count, m);
        FlatAt(ds, m, r, start - ds[r].addrRangeMin);
        forall k | 0 <= k < |flat| && flat[k] == start
          ensures k == |FlatTo(ds, r)| + (start - ds[r].addrRangeMin)
        {
          FlatIndex(ds, m, r, k, start);
        }
        return;
      }
      r := r + 1;
    }
    if start in flat {
      FlatCovers(ds, m, start);
    }
    return OutOfResources, start, false;
  }

  /** With all 256 buses on offer, asking for one after bus 255 loses a bit: a success is claimed for a number past the list. */
  lemma LostAtTheTop(ds: seq<Descriptor>)
    requires |ds| == 2 && ds[0].desc == ADDRESS_SPACE_DESCRIPTOR && ds[1].desc == END_TAG_DESCRIPTOR
    requires ds[0].addrRangeMin == 0 && ds[0].addrLen == 256
    ensures Usable(ds, 1) && |FlatTo(ds, 1)| == 256 && FlatTo(ds, 1)[255] == 255
    ensures Overruns(Last(ds[0]), 256, 255 + 1)
  {
    FlatAt(ds, 1, 0, 255);
  }

  /** Asking for the one number after a list that ends at 255 is answered with bus 0. */
  lemma WrapsToZero(ds: seq<Descriptor>, m: nat, next: Byte)
    requires Usable(ds, m)
    requires Overruns(Last(ds[m - 1]), |FlatTo(ds, m)|, |FlatTo(ds, m)|)
    requires Wrapped(ds, m, |FlatTo(ds, m)|, next)
    ensures Last(ds[m - 1]) == MAX_BUS && next == 0
  {
    hide FlatTo, Running, Usable;
    RunningEnds(ds, m, 0);
    var n := |FlatTo(ds, m)|;
    var r: nat :| r < m && |FlatTo(ds, r)| <= n && Running(ds, r, n) == next + 0x100;
    RunningGrows(ds, m, r, m - 1, n);
    RunningEnds(ds, m, n);
  }

  lemma RunningEnds(ds: seq<Descriptor>, m: nat, n: nat)
    requires Usable(ds, m)
    ensures 0 < m <= |ds| && Last(ds[m - 1]) <= MAX_BUS
    ensures Running(ds, m - 1, n) == Last(ds[m - 1]) + 1 + (n - |FlatTo(ds, m)|)
  {
    FlatGrows(ds, m);
  }

  lemma FlatGrows(ds: seq<Descriptor>, m: nat)
    requires 0 < m <= |ds|
    ensures |FlatTo(ds, m)| == |FlatTo(ds, m - 1)| + ds[m - 1].addrLen
  {
  }
}
