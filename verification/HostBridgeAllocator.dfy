/**
  Resource allocation for a host bridge: submit requests, ask for an allocation, give devices up and try again until the
  host bridge accepts; and the order of phase notifications over a whole enumeration.
*/
module HostBridgeAllocator {
  import opened PciTopology
  import opened DeviceTree
  import opened ResourceRejection
  import AcpiDescriptors
  import ResourceDescriptors
  import Multiples
  import OptionRoms

  datatype Phase =
    | BeginEnumeration
    | BeginBusAllocation
    | EndBusAllocation
    | BeginResourceAllocation
    | AllocateResources
    | FreeResources
    | SetResources
    | EndResourceAllocation
    | EndEnumeration

  /** What the host bridge sees: phase notifications, and one submission of the Mem32 request for each root bridge. */
  datatype Event = Notify(phase: Phase) | Submit(root: nat, length: nat, alignment: nat)

  // ------------------------------------------------------------------- protocol

  /** Where an enumeration stands. Submitting(k): the first k root bridges have submitted since the last allocation. */
  datatype Stage =
    | Fresh
    | Begun
    | InBuses(again: bool)
    | AfterBuses(again: bool)
    | Submitting(k: nat)
    | Allocated
    | Programmed
    | Released
    | Finished

  ghost function Next(roots: seq<nat>, stage: Stage, e: Event): Option<Stage> {
    match (stage, e)
    case (Fresh, Notify(BeginEnumeration)) => Some(Begun)
    case (Begun, Notify(BeginBusAllocation)) => Some(InBuses(false))
    case (InBuses(again), Notify(EndBusAllocation)) => Some(AfterBuses(again))
    case (AfterBuses(again), Notify(BeginBusAllocation)) => if again then None else Some(InBuses(true))
    case (AfterBuses(_), Notify(BeginResourceAllocation)) => Some(Submitting(0))
    case (Submitting(k), Submit(root, _, _)) => if k < |roots| && root == roots[k] then Some(Submitting(k + 1)) else None
    case (Submitting(k), Notify(AllocateResources)) => if k == |roots| then Some(Allocated) else None
    case (Allocated, Notify(FreeResources)) => Some(Submitting(0))
    case (Allocated, Notify(SetResources)) => Some(Programmed)
    case (Programmed, Notify(EndResourceAllocation)) => Some(Released)
    case (Released, Notify(EndEnumeration)) => Some(Finished)
    case _ => None
  }

  /** The stage a trace leads to; None if it breaks the protocol somewhere. */
  ghost function Reached(roots: seq<nat>, trace: seq<Event>): Option<Stage> {
    if trace == [] then Some(Fresh)
    else
      match Reached(roots, trace[..|trace| - 1])
      case None => None
      case Some(stage) => Next(roots, stage, trace[|trace| - 1])
  }

  lemma ReachedStep(roots: seq<nat>, trace: seq<Event>, e: Event)
    requires Reached(roots, trace).Some?
    ensures Reached(roots, trace + [e]) == Next(roots, Reached(roots, trace).value, e)
  {
    assert (trace + [e])[..|trace|] == trace;
  }

  lemma SubmissionStep(roots: seq<nat>, trace: seq<Event>, k: nat, length: nat, alignment: nat)
    requires k < |roots| && Reached(roots, trace) == Some(Submitting(k))
    ensures Reached(roots, trace + [Submit(roots[k], length, alignment)]) == Some(Submitting(k + 1))
  {
    ReachedStep(roots, trace, Submit(roots[k], length, alignment));
  }

  /** The notifications of a trace, without the submissions. */
  ghost function Phases(trace: seq<Event>): seq<Phase> {
    if trace == [] then []
    else
      var last := trace[|trace| - 1];
      Phases(trace[..|trace| - 1]) + if last.Notify? then [last.phase] else []
  }

  lemma PhasesStep(trace: seq<Event>, e: Event)
    ensures Phases(trace + [e]) == Phases(trace) + if e.Notify? then [e.phase] else []
  {
    assert (trace + [e])[..|trace|] == trace;
  }

  /** Allocations that were refused, and freed before the next try. */
  ghost function Tries(n: nat): seq<Phase> {
    if n == 0 then [] else Tries(n - 1) + [AllocateResources, FreeResources]
  }

  lemma NoTries(trace: seq<Event>)
    ensures Phases(trace) == Phases(trace) + Tries(0)
  {
  }

  lemma TriedOnceMore(phases: seq<Phase>, n: nat)
    ensures phases + Tries(n) + [AllocateResources] + [FreeResources] == phases + Tries(n + 1)
  {
    assert Tries(n + 1) == Tries(n) + [AllocateResources] + [FreeResources];
  }

  /** A trace that keeps to the protocol kept to it all along. */
  lemma {:induction false} PrefixesReach(roots: seq<nat>, trace: seq<Event>, n: nat)
    requires Reached(roots, trace).Some? && n <= |trace|
    ensures Reached(roots, trace[..n]).Some?
  {
    if n < |trace| {
      PrefixesReach(roots, trace[..|trace| - 1], n);
      assert trace[..|trace| - 1][..n] == trace[..n];
    } else {
      assert trace[..n] == trace;
    }
  }

  /** The last k events of the trace are the submissions of the first k root bridges, in order. */
  ghost predicate EndsInSubmissions(roots: seq<nat>, trace: seq<Event>, k: nat) {
    && k <= |trace| && k <= |roots|
    && forall j :: 0 <= j < k ==> SubmissionOf(trace[|trace| - k + j], roots[j])
  }

  ghost predicate SubmissionOf(e: Event, root: nat) {
    e.Submit? && e.root == root
  }

  lemma {:induction false} SubmissionsCount(roots: seq<nat>, trace: seq<Event>, k: nat)
    requires Reached(roots, trace) == Some(Submitting(k))
    ensures EndsInSubmissions(roots, trace, k)
  {
    var before, last := trace[..|trace| - 1], trace[|trace| - 1];
    if k > 0 {
      SubmissionsCount(roots, before, k - 1);
      forall j | 0 <= j < k
        ensures SubmissionOf(trace[|trace| - k + j], roots[j])
      {
        if j < k - 1 {
          assert SubmissionOf(before[|before| - (k - 1) + j], roots[j]);
        } else {
          assert trace[|trace| - k + j] == last;
        }
      }
    }
  }

  /** Right before every allocation, each root bridge submitted its request exactly once since the stage began. */
  lemma AllocationFollowsSubmissions(roots: seq<nat>, trace: seq<Event>, n: nat)
    requires Reached(roots, trace).Some? && n < |trace| && trace[n] == Notify(AllocateResources)
    ensures EndsInSubmissions(roots, trace[..n], |roots|)
    ensures |roots| < n ==> trace[..n][n - |roots| - 1].Notify?
  {
    PrefixesReach(roots, trace, n + 1);
    assert trace[..n + 1][..n] == trace[..n];
    SubmissionsCount(roots, trace[..n], |roots|);
    NotifiedBefore(roots, trace[..n], |roots|);
  }

  lemma {:induction false} NotifiedBefore(roots: seq<nat>, trace: seq<Event>, k: nat)
    requires Reached(roots, trace) == Some(Submitting(k))
    ensures k < |trace| && trace[|trace| - k - 1].Notify?
  {
    var before := trace[..|trace| - 1];
    if k > 0 {
      NotifiedBefore(roots, before, k - 1);
    }
  }

  // --------------------------------------------------------------- host bridge

  datatype Proposal = Refused | NoDescriptors | Descriptors(config: seq<AcpiDescriptors.Descriptor>, count: nat)

  /**
    Everything the host bridge and the resource maps may answer, by round of the retry loop and index of the root
    bridge: the Mem32 request, whether a submission is accepted, whether the allocation succeeds, what is proposed,
    and the resource trees of the five types.
  */
  datatype Host = Host(
    mem32: (nat, nat) -> (nat, nat),
    submits: (nat, nat) -> bool,
    allocates: nat -> bool,
    proposes: (nat, nat) -> Proposal,
    finals: nat -> Proposal,
    trees: nat -> seq<ResourceNode>
  )

  ghost predicate Sane(host: Host, devices: seq<Device>) {
    && (forall round, k {:trigger host.proposes(round, k)} :: ListsProposal(host.proposes(round, k)))
    && (forall k {:trigger host.finals(k)} :: ListsProposal(host.finals(k)) && host.finals(k) != NoDescriptors)
    && (forall round {:trigger host.trees(round)} ::
          |host.trees(round)| == RESOURCE_TYPES &&
          forall t :: 0 <= t < RESOURCE_TYPES ==> Names(devices, host.trees(round)[t]))
  }

  ghost predicate ListsProposal(p: Proposal) {
    p.Descriptors? ==> ResourceDescriptors.Listing(p.config, p.count)
  }

  /** The option ROMs loaded for one root bridge: the devices, the base of the window and its length. */
  datatype Loaded = Loaded(root: nat, devices: seq<nat>, base: nat, window: nat)

  datatype Status = Success | OutOfResources | Aborted | HostError

  /**
    An adjustment after a refused allocation: the child lists and the padding it found, the statuses it went by, its
    choices for the types it came to, and what was taken away.
  */
  datatype Attempt = Attempt(children: seq<seq<nat>>, padding: set<nat>, statuses: seq<nat>,
                             choices: seq<Option<ResourceNode>>, removed: seq<nat>)
  {
    /** It came to all five types and took something away. */
    predicate GoesOn() {
      |choices| == RESOURCE_TYPES && removed != []
    }
  }

  class Allocator {
    const pool: DevicePool
    const roots: seq<nat>
    const host: Host
    /** PcdPciBusHotplugDeviceSupport. */
    const hotPlug: bool
    ghost var trace: seq<Event>
    /** The RomSize field of each root bridge. */
    var romSize: map<nat, nat>
    /** Length and alignment of the Mem32 request last submitted for each root bridge. */
    var submitted: map<nat, (nat, nat)>

    constructor (pool: DevicePool, roots: seq<nat>, host: Host, hotPlug: bool)
      requires pool.Valid() && Sane(host, pool.devices) && roots != []
      requires forall k :: 0 <= k < |roots| ==> roots[k] < |pool.devices|
      requires forall j, k :: 0 <= j < k < |roots| ==> roots[j] != roots[k]
      ensures this.pool == pool && this.roots == roots && this.host == host && this.hotPlug == hotPlug
      ensures Valid() && At(Fresh)
    {
      this.pool := pool;
      this.roots := roots;
      this.host := host;
      this.hotPlug := hotPlug;
      trace := [];
      romSize := map[];
      submitted := map[];
    }

    ghost predicate Valid()
      reads this`trace, pool
    {
      && pool.Valid()
      && Sane(host, pool.devices)
      && roots != []
      && (forall k :: 0 <= k < |roots| ==> roots[k] < |pool.devices|)
      && (forall j, k :: 0 <= j < k < |roots| ==> roots[j] != roots[k])
      && Reached(roots, trace).Some?
    }

    ghost predicate At(stage: Stage)
      reads this`trace
    {
      Reached(roots, trace) == Some(stage)
    }

    method Report(phase: Phase)
      requires Reached(roots, trace).Some? && Next(roots, Reached(roots, trace).value, Notify(phase)).Some?
      modifies this`trace
      ensures trace == old(trace) + [Notify(phase)] && Phases(trace) == Phases(old(trace)) + [phase]
      ensures Reached(roots, trace) == old(Next(roots, Reached(roots, trace).value, Notify(phase)))
    {
      ReachedStep(roots, trace, Notify(phase));
      PhasesStep(trace, Notify(phase));
      trace := trace + [Notify(phase)];
    }

    /** The window of a root bridge is as long as the Mem32 request submitted for it. */
    ghost predicate WindowMatches(root: nat)
      reads this`romSize, this`submitted
    {
      root in romSize && root in submitted && romSize[root] == submitted[root].0
    }

    ghost predicate WindowsMatch(n: nat)
      requires n <= |roots|
      reads this`romSize, this`submitted
    {
      forall k :: 0 <= k < n ==> WindowMatches(roots[k])
    }

    /**
      The window of root bridge k is as long as its Mem32 request, or as the largest option ROM below it, `max`, if that
      is longer, and aligned for that ROM.
    */
    ghost predicate WindowSuffices(round: nat, k: nat)
      requires k < |roots| && pool.Valid()
      reads this`romSize, this`submitted, pool
    {
      && WindowMatches(roots[k])
      && exists max: nat :: LargestRom(k, max) &&
           romSize[roots[k]] == (if max > host.mem32(round, k).0 then max else host.mem32(round, k).0) &&
           submitted[roots[k]].1 == OptionRoms.RomAlignment(host.mem32(round, k).1, max)
    }

    /** The request of root bridge k went out as it came from the resource map. */
    ghost predicate WindowAsAsked(round: nat, k: nat)
      requires k < |roots|
      reads this`romSize, this`submitted
    {
      WindowMatches(roots[k]) && submitted[roots[k]] == host.mem32(round, k)
    }

    ghost predicate WindowsAsAsked(round: nat, n: nat)
      requires n <= |roots|
      reads this`romSize, this`submitted
    {
      forall k :: 0 <= k < n ==> WindowAsAsked(round, k)
    }

    /** The largest option ROM below root bridge k; zero if there is none. */
    ghost predicate LargestRom(k: nat, max: nat)
      requires k < |roots| && pool.Valid()
      reads pool
    {
      && (forall d: nat :: OptionRoms.Below(pool.devices, pool.children, roots[k], d) ==> pool.devices[d].romSize <= max)
      && (max == 0 || exists d: nat ::
            OptionRoms.Below(pool.devices, pool.children, roots[k], d) && pool.devices[d].romSize == max)
    }

    ghost predicate WindowsSuffice(round: nat, n: nat)
      requires n <= |roots| && pool.Valid()
      reads this`romSize, this`submitted, pool
    {
      forall k :: 0 <= k < n ==> WindowSuffices(round, k)
    }

    /** Size and submit the request of one root bridge; on the first pass enlarge Mem32 for the option ROMs. */
    method SubmitOne(round: nat, k: nat, reAllocate: bool)
      requires Valid() && k < |roots| && At(Submitting(k))
      modifies this`trace, this`romSize, this`submitted
      ensures Valid() && At(Submitting(k + 1))
      ensures WindowMatches(roots[k])
      ensures if reAllocate then WindowAsAsked(round, k) else WindowSuffices(round, k)
      ensures trace == old(trace) + [Submit(roots[k], submitted[roots[k]].0, submitted[roots[k]].1)]
      ensures Phases(trace) == Phases(old(trace))
      ensures forall r :: r in old(romSize) && r != roots[k] ==> r in romSize && romSize[r] == old(romSize)[r]
      ensures forall r :: r in old(submitted) && r != roots[k] ==> r in submitted && submitted[r] == old(submitted)[r]
    {
      hide Sane, Reached, Next, OptionRoms.Below, OptionRoms.RomAlignment, Phases;
      var (length, alignment) := host.mem32(round, k);
      romSize := romSize[roots[k] := length];
      if !reAllocate {
        var max := OptionRoms.GetMaxOptionRomSize(pool, roots[k]);
        if max > length {
          length := max;
          romSize := romSize[roots[k] := max];
        }
        alignment := OptionRoms.RomAlignment(alignment, max);
        assert LargestRom(k, max);
      }
      submitted := submitted[roots[k] := (length, alignment)];
      SubmissionStep(roots, trace, k, length, alignment);
      PhasesStep(trace, Submit(roots[k], length, alignment));
      trace := trace + [Submit(roots[k], length, alignment)];
    }

    /** The host bridge accepts what every root bridge submits in a round. */
    ghost predicate AllSubmit(round: nat) {
      forall k: nat :: k < |roots| ==> host.submits(round, k)
    }

    /** Size and submit the requests of every root bridge, unless the host bridge refuses one. */
    method SubmitAll(round: nat, reAllocate: bool) returns (ok: bool)
      requires Valid() && At(Submitting(0))
      modifies this`trace, this`romSize, this`submitted
      ensures Valid()
      ensures ok <==> AllSubmit(round)
      ensures Phases(trace) == Phases(old(trace))
      ensures ok ==> At(Submitting(|roots|)) && WindowsMatch(|roots|)
      ensures ok ==> if reAllocate then WindowsAsAsked(round, |roots|) else WindowsSuffice(round, |roots|)
    {
      hide Sane, Reached, OptionRoms.RomAlignment, OptionRoms.Below, Consistent, LargestRom, Phases;
      var k := 0;
      while k < |roots|
        invariant k <= |roots| && Valid() && At(Submitting(k))
        invariant WindowsMatch(k)
        invariant if reAllocate then WindowsAsAsked(round, k) else WindowsSuffice(round, k)
        invariant forall j: nat :: j < k ==> host.submits(round, j)
        invariant Phases(trace) == Phases(old(trace))
      {
        label before:
        SubmitOne(round, k, reAllocate);
        if !host.submits(round, k) {
          return false;
        }
        forall j | 0 <= j < k
          ensures WindowMatches(roots[j])
          ensures if reAllocate then WindowAsAsked(round, j) else WindowSuffices(round, j)
        {
          assert old@before(WindowMatches(roots[j]));
          if reAllocate {
            assert old@before(WindowAsAsked(round, j));
          } else {
            assert old@before(WindowSuffices(round, j));
          }
        }
        k := k + 1;
      }
      return true;
    }

    /** The status of one kind of resource after the answers of the first k root bridges: the last one given counts. */
    ghost function StatusTo(round: nat, k: nat, kind: ResourceDescriptors.Kind): nat
      requires k <= |roots| && Sane(host, pool.devices)
    {
      if k == 0 then ResourceDescriptors.RESOURCE_SATISFIED
      else
        match host.proposes(round, k - 1)
        case Descriptors(config, count) =>
          assert ListsProposal(host.proposes(round, k - 1));
          ResourceDescriptors.LastStatus(config, count, kind, StatusTo(round, k - 1, kind))
        case _ => StatusTo(round, k - 1, kind)
    }

    /** The statuses the adjustment after a round goes by. */
    ghost predicate StatusesOf(round: nat, status: seq<nat>)
      requires Sane(host, pool.devices)
    {
      |status| == RESOURCE_TYPES == |ResourceDescriptors.KINDS| &&
      forall t :: 0 <= t < |status| ==> status[t] == StatusTo(round, |roots|, ResourceDescriptors.KINDS[t])
    }

    /** The proposal for root bridge k has a descriptor of the kind. */
    ghost predicate Mentions(round: nat, k: nat, kind: ResourceDescriptors.Kind)
      requires Sane(host, pool.devices)
    {
      host.proposes(round, k).Descriptors? &&
      assert ListsProposal(host.proposes(round, k));
      exists j: nat :: j < host.proposes(round, k).count && ResourceDescriptors.StatusOf(host.proposes(round, k).config[j], kind)
    }

    /** The status is what the last root bridge to mention the kind says of it; a kind never mentioned is satisfied. */
    lemma {:induction false} StatusIsLast(round: nat, n: nat, kind: ResourceDescriptors.Kind, k: int)
      requires Sane(host, pool.devices) && -1 <= k < n <= |roots|
      requires k >= 0 ==> Mentions(round, k, kind)
      requires forall t: nat :: k < t < n ==> !Mentions(round, t, kind)
      ensures k >= 0 ==> host.proposes(round, k).Descriptors? && ListsProposal(host.proposes(round, k))
      ensures StatusTo(round, n, kind) ==
              if k >= 0
              then ResourceDescriptors.LastStatus(host.proposes(round, k).config, host.proposes(round, k).count, kind, 0)
              else 0
    {
      if n == 0 {
        return;
      }
      assert ListsProposal(host.proposes(round, n - 1));
      var proposal := host.proposes(round, n - 1);
      if k < n - 1 {
        assert !Mentions(round, n - 1, kind);
        if proposal.Descriptors? {
          ResourceDescriptors.LastStatusIs(proposal.config, proposal.count, kind, StatusTo(round, n - 1, kind), -1);
        }
        StatusIsLast(round, n - 1, kind, k);
      } else {
        ResourceDescriptors.MentionDecides(proposal.config, proposal.count, kind, StatusTo(round, n - 1, kind), 0);
      }
    }

    /** Some root bridge's proposal is refused. */
    ghost predicate SomeRefuses(round: nat) {
      exists k: nat :: k < |roots| && host.proposes(round, k) == Refused
    }

    /** Ask every root bridge for its proposal; a later root bridge's status for a type replaces an earlier one's. */
    method GatherStatus(round: nat) returns (ok: bool, status: seq<nat>)
      requires Valid()
      ensures ok <==> !SomeRefuses(round)
      ensures ok ==> StatusesOf(round, status)
      ensures ok ==> status == [StatusTo(round, |roots|, ResourceDescriptors.Io),
                                StatusTo(round, |roots|, ResourceDescriptors.Mem32),
                                StatusTo(round, |roots|, ResourceDescriptors.PMem32),
                                StatusTo(round, |roots|, ResourceDescriptors.Mem64),
                                StatusTo(round, |roots|, ResourceDescriptors.PMem64)]
    {
      hide Reached;
      var five: ResourceDescriptors.Five<nat> := ResourceDescriptors.Five(0, 0, 0, 0, 0);
      var k := 0;
      while k < |roots|
        invariant k <= |roots|
        invariant forall j: nat :: j < k ==> host.proposes(round, j) != Refused
        invariant forall kind :: five.Get(kind) == StatusTo(round, k, kind)
      {
        var proposal := host.proposes(round, k);
        match proposal {
          case Refused => return false, [];
          case NoDescriptors =>
          case Descriptors(config, count) =>
            five := ResourceDescriptors.GetResourceAllocationStatus(config, five, count);
        }
        k := k + 1;
      }
      return true, [five.io, five.mem32, five.pMem32, five.mem64, five.pMem64];
    }

    /** Every ROM that was loaded lies inside the window that was submitted for it, and was loaded once. */
    ghost predicate LoadsFit(loads: seq<Loaded>)
      reads this`submitted
    {
      forall l :: l in loads ==>
        && l.root in submitted && l.window == submitted[l.root].0
        && NoDuplicates(l.devices)
        && forall d :: d in l.devices ==> d < |pool.devices| && 0 < pool.devices[d].romSize <= l.window
    }

    /** The base of the Mem32 window in the host bridge's final answer for root bridge k. */
    ghost function Mem32Base(k: nat): nat
      requires Sane(host, pool.devices)
    {
      var final := host.finals(k);
      if final.Descriptors? then ResourceDescriptors.LastBase(final.config, final.count, ResourceDescriptors.Mem32) else 0
    }

    /** The first n root bridges have loaded just the ROMs below them that fit, at the base of their windows. */
    ghost predicate LoadsComplete(loads: seq<Loaded>, n: nat)
      requires n <= |roots| && pool.Valid() && Sane(host, pool.devices)
      reads pool
    {
      && |loads| == n
      && forall k :: 0 <= k < n ==>
           && loads[k].root == roots[k]
           && loads[k].base == Mem32Base(k)
           && forall d: nat :: d in loads[k].devices <==>
                OptionRoms.Below(pool.devices, pool.children, roots[k], d) &&
                0 < pool.devices[d].romSize <= loads[k].window
    }

    /** The host bridge gives its final answer for every root bridge. */
    ghost predicate NoneRefused() {
      forall k: nat :: k < |roots| ==> host.finals(k) != Refused
    }

    /** What is loaded for the next root bridge is added to what was loaded for those before it. */
    lemma LoadsStep(loads: seq<Loaded>, k: nat, l: Loaded)
      requires Valid() && k < |roots| && LoadsFit(loads) && LoadsComplete(loads, k)
      requires LoadsFit([l]) && l.root == roots[k] && l.base == Mem32Base(k)
      requires forall d: nat :: d in l.devices <==>
                 OptionRoms.Below(pool.devices, pool.children, roots[k], d) && 0 < pool.devices[d].romSize <= l.window
      ensures LoadsFit(loads + [l]) && LoadsComplete(loads + [l], k + 1)
    {
      hide Reached, Mem32Base, Consistent, Sane;
      assert l in [l];
    }

    lemma NothingLoaded()
      requires Valid()
      ensures LoadsComplete([], 0)
    {
    }

    /** Read the base of every Mem32 window and load the option ROMs that fit. */
    method LoadOptionRoms() returns (ok: bool, loads: seq<Loaded>)
      requires Valid() && WindowsMatch(|roots|)
      ensures LoadsFit(loads)
      ensures ok <==> NoneRefused()
      ensures ok ==> LoadsComplete(loads, |roots|)
    {
      hide Reached, ResourceDescriptors.LastBase, Consistent, LoadsComplete, NoDuplicates;
      loads := [];
      NothingLoaded();
      var k := 0;
      while k < |roots|
        invariant k <= |roots|
        invariant LoadsFit(loads) && LoadsComplete(loads, k)
        invariant forall j: nat :: j < k ==> host.finals(j) != Refused
      {
        var final := host.finals(k);
        if final.Refused? {
          return false, loads;
        }
        assert WindowMatches(roots[k]);
        var base := ResourceDescriptors.GetResourceBase(final.config, final.count);
        var devices := OptionRoms.ProcessOptionRom(pool, roots[k], romSize[roots[k]]);
        var loaded := Loaded(roots[k], devices, base.mem32, romSize[roots[k]]);
        assert base.Get(ResourceDescriptors.Mem32) == base.mem32;
        LoadsStep(loads, k, loaded);
        loads := loads + [loaded];
        k := k + 1;
      }
      return true, loads;
    }

    /** What a run of the retry loop has taken away since it began: only what may be taken away. */
    ghost predicate TakenAway(children0: seq<seq<nat>>, padding0: set<nat>, gone: set<nat>, rounds: nat)
      requires pool.Valid() && Consistent(pool.devices, children0)
      reads pool
    {
      && After(pool.devices, children0, padding0, pool.children, pool.padding, gone)
      && (forall d :: d in gone ==> d < |pool.devices| && (pool.devices[d].bridge || Rejectable(pool.devices[d])))
      && (forall d :: d in gone && !pool.devices[d].bridge ==> !pool.devices[d].vga && pool.devices[d].bus != 0)
      && rounds + Weight(pool.devices, pool.children, pool.padding) <= Weight(pool.devices, children0, padding0)
    }

    /** An adjustment after a refused allocation, of this round: it goes by the statuses and the trees of the round. */
    ghost predicate Adjusts(round: nat, a: Attempt)
      requires Sane(host, pool.devices)
    {
      && Consistent(pool.devices, a.children)
      && StatusesOf(round, a.statuses)
      && Decided(pool.devices, a.children, a.padding, host.trees(round), a.statuses, a.choices, a.removed)
      && if |a.choices| < RESOURCE_TYPES then a.statuses[|a.choices|] == RESOURCE_NOT_SATISFIED
         else RESOURCE_NOT_SATISFIED !in a.statuses
    }

    /** One failed allocation: gather the statuses, give devices up, free what was allocated. */
    method Retry(round: nat, ghost children0: seq<seq<nat>>, ghost padding0: set<nat>, ghost gone0: set<nat>)
      returns (status: Status, ghost gone: set<nat>, ghost attempt: Attempt)
      requires Valid() && At(Allocated) && Consistent(pool.devices, children0)
      requires TakenAway(children0, padding0, gone0, round)
      modifies this`trace, pool
      ensures Valid()
      ensures status == Success ==> TakenAway(children0, padding0, gone, round + 1)
      ensures status == Success ==>
                Weight(pool.devices, pool.children, pool.padding) < Weight(pool.devices, old(pool.children), old(pool.padding))
      ensures TakenAway(children0, padding0, gone, 0)
      ensures status == HostError <==> SomeRefuses(round)
      ensures status == HostError ==> gone == gone0 && pool.children == old(pool.children) && pool.padding == old(pool.padding)
      ensures status == HostError ==> trace == old(trace)
      ensures status != HostError ==>
                && At(Submitting(0)) && Phases(trace) == Phases(old(trace)) + [FreeResources]
                && attempt.children == old(pool.children) && attempt.padding == old(pool.padding)
                && Adjusts(round, attempt)
                && After(pool.devices, attempt.children, attempt.padding, pool.children, pool.padding, SetOf(attempt.removed))
                && gone == gone0 + SetOf(attempt.removed)
                && (status == Success <==> attempt.GoesOn())
      ensures status != OutOfResources
    {
      hide After, Weight, Decided;
      gone, attempt := gone0, Attempt(pool.children, pool.padding, [], [], []);
      var ok, gathered := GatherStatus(round);
      if !ok {
        status := HostError;
        return;
      }
      ghost var children1, padding1 := pool.children, pool.padding;
      ghost var choices;
      var removed;
      ok, removed, choices := PciHostBridgeAdjustAllocation(pool, host.trees(round), gathered);
      attempt := Attempt(children1, padding1, gathered, choices, removed);
      AfterTwice(pool.devices, children0, padding0, children1, padding1, pool.children, pool.padding, gone0, SetOf(removed));
      gone := gone0 + SetOf(removed);
      Report(FreeResources);
      status := if ok then Success else Aborted;
    }

    /** After an accepted allocation: program the host bridge and load the option ROMs. */
    method Program() returns (status: Status, loads: seq<Loaded>)
      requires Valid() && At(Allocated) && WindowsMatch(|roots|)
      modifies this`trace
      ensures Valid()
      ensures LoadsFit(loads)
      ensures status == (if NoneRefused() then Success else HostError)
      ensures Phases(trace) == Phases(old(trace)) + [SetResources] + if NoneRefused() then [EndResourceAllocation] else []
      ensures status == Success ==> At(Released) && LoadsComplete(loads, |roots|)
    {
      Report(SetResources);
      var ok;
      ok, loads := LoadOptionRoms();
      if !ok {
        return HostError, loads;
      }
      Report(EndResourceAllocation);
      status := Success;
    }

    /** In each of the first n rounds everything was submitted and the allocation refused, and it could be tried again. */
    ghost predicate Refusals(n: nat) {
      forall t: nat :: t < n ==> hotPlug && AllSubmit(t) && !host.allocates(t) && !SomeRefuses(t)
    }

    /** The adjustments of the first |attempts| rounds, each on what the one before it left, and what they took away. */
    ghost predicate Adjustments(children0: seq<seq<nat>>, padding0: set<nat>, attempts: seq<Attempt>, gone: set<nat>)
      requires Sane(host, pool.devices)
      reads pool
    {
      && (forall t: nat :: t < |attempts| ==> Adjusts(t, attempts[t]))
      && (forall t: nat :: t < |attempts| ==> Leaves(attempts, t, pool.children, pool.padding))
      && Found(attempts, 0, pool.children, pool.padding) == (children0, padding0)
      && (forall d :: d in gone <==> exists t: nat :: t < |attempts| && d in attempts[t].removed)
    }

    /** What attempt t found; behind the last attempt, what there is now. */
    ghost function Found(attempts: seq<Attempt>, t: nat, children: seq<seq<nat>>, padding: set<nat>): (seq<seq<nat>>, set<nat>)
    {
      if t < |attempts| then (attempts[t].children, attempts[t].padding) else (children, padding)
    }

    /** What attempt t leaves is what the next one found. */
    ghost predicate Leaves(attempts: seq<Attempt>, t: nat, children: seq<seq<nat>>, padding: set<nat>)
      requires t < |attempts|
    {
      var next := Found(attempts, t + 1, children, padding);
      After(pool.devices, attempts[t].children, attempts[t].padding, next.0, next.1, SetOf(attempts[t].removed))
    }

    lemma AttemptAdded(children0: seq<seq<nat>>, padding0: set<nat>, attempts: seq<Attempt>, gone: set<nat>,
                       children: seq<seq<nat>>, padding: set<nat>, attempt: Attempt)
      requires Sane(host, pool.devices)
      requires forall t: nat :: t < |attempts| ==> Adjusts(t, attempts[t])
      requires forall t: nat :: t < |attempts| ==> Leaves(attempts, t, children, padding)
      requires Found(attempts, 0, children, padding) == (children0, padding0)
      requires forall d :: d in gone <==> exists t: nat :: t < |attempts| && d in attempts[t].removed
      requires Adjusts(|attempts|, attempt) && attempt.children == children && attempt.padding == padding
      requires After(pool.devices, children, padding, pool.children, pool.padding, SetOf(attempt.removed))
      ensures Adjustments(children0, padding0, attempts + [attempt], gone + SetOf(attempt.removed))
    {
      hide Adjusts, After;
      var attempts' := attempts + [attempt];
      forall t: nat | t < |attempts'|
        ensures Leaves(attempts', t, pool.children, pool.padding)
      {
        if t < |attempts| {
          assert Leaves(attempts, t, children, padding);
        }
      }
      forall d
        ensures d in gone + SetOf(attempt.removed) <==> exists t: nat :: t < |attempts'| && d in attempts'[t].removed
      {
        if d in gone {
          var t: nat :| t < |attempts| && d in attempts[t].removed;
          assert attempts'[t] == attempts[t];
        }
        if d in SetOf(attempt.removed) {
          assert d in attempts'[|attempts|].removed;
        }
      }
    }

    /**
      How the retry loop ended, and in which round. The answers of the host bridge alone decide on success, a shortage
      and an error; the driver gives up after a refused allocation only if the adjustment comes to a type the host
      bridge does not have, or takes nothing away.
    */
    ghost predicate SettledAs(status: Status, rounds: nat, attempts: seq<Attempt>) {
      && Refusals(rounds)
      && (status == Success <==> AllSubmit(rounds) && host.allocates(rounds))
      && (status == OutOfResources <==> !hotPlug && AllSubmit(0) && !host.allocates(0))
      && (status == HostError <==>
          !AllSubmit(rounds) || (hotPlug && !host.allocates(rounds) && SomeRefuses(rounds)))
      && (status == Aborted <==>
          hotPlug && AllSubmit(rounds) && !host.allocates(rounds) && !SomeRefuses(rounds))
      && |attempts| == (if status == Aborted then rounds + 1 else rounds)
      && (forall t: nat :: t < |attempts| ==> (attempts[t].GoesOn() <==> t < rounds))
    }

    /**
      The retry loop: it ends for any answers of the host bridge, since every further round costs a device or a
      bridge's padding. `rounds` counts the failed allocations that were followed by another try.
    */
    method Settle() returns (status: Status, rounds: nat, ghost gone: set<nat>, ghost attempts: seq<Attempt>)
      requires Valid() && At(Submitting(0))
      modifies this, pool
      ensures Valid()
      ensures TakenAway(old(pool.children), old(pool.padding), gone, 0)
      ensures rounds <= Weight(pool.devices, old(pool.children), old(pool.padding))
      ensures SettledAs(status, rounds, attempts)
      ensures Adjustments(old(pool.children), old(pool.padding), attempts, gone)
      ensures status == Success ==> At(Allocated) && WindowsMatch(|roots|)
      ensures status == Success ==> if rounds == 0 then WindowsSuffice(0, |roots|) else WindowsAsAsked(rounds, |roots|)
      ensures status == Success && rounds == 0 ==> gone == {}
      ensures status == Aborted ==> At(Submitting(0)) && Phases(trace) == Phases(old(trace)) + Tries(rounds + 1)
      ensures status != Aborted && AllSubmit(rounds) ==>
                At(Allocated) && Phases(trace) == Phases(old(trace)) + Tries(rounds) + [AllocateResources]
      ensures !AllSubmit(rounds) ==> Phases(trace) == Phases(old(trace)) + Tries(rounds)
    {
      hide Phases, Tries, After, Weight, Reached, WindowsSuffice, WindowsAsAsked, Decided, Adjusts, SomeRefuses, AllSubmit, Sane, Consistent;
      rounds, gone, attempts := 0, {}, [];
      ghost var children0, padding0 := pool.children, pool.padding;
      AfterNothing(pool.devices, pool.children, pool.padding);
      NoTries(trace);
      while true
        invariant Valid() && At(Submitting(0))
        invariant TakenAway(children0, padding0, gone, rounds)
        invariant rounds == 0 ==> gone == {}
        invariant Refusals(rounds) && |attempts| == rounds && forall t: nat :: t < rounds ==> attempts[t].GoesOn()
        invariant Adjustments(children0, padding0, attempts, gone)
        invariant Phases(trace) == Phases(old(trace)) + Tries(rounds)
        decreases Weight(pool.devices, pool.children, pool.padding)
      {
        var ok := SubmitAll(rounds, rounds != 0);
        if !ok {
          return HostError, rounds, gone, attempts;
        }
        Report(AllocateResources);
        if !hotPlug {
          return if host.allocates(rounds) then Success else OutOfResources, rounds, gone, attempts;
        }
        if host.allocates(rounds) {
          return Success, rounds, gone, attempts;
        }
        ghost var children1, padding1, gone1 := pool.children, pool.padding, gone;
        ghost var attempt;
        status, gone, attempt := Retry(rounds, children0, padding0, gone);
        if status == HostError {
          return status, rounds, gone, attempts;
        }
        AttemptAdded(children0, padding0, attempts, gone1, children1, padding1, attempt);
        attempts := attempts + [attempt];
        TriedOnceMore(Phases(old(trace)), rounds);
        if status != Success {
          return status, rounds, gone, attempts;
        }
        rounds := rounds + 1;
      }
    }

    /**
      PciHostBridgeResourceAllocator. Whatever the host bridge answers, only padding of bridges and rejectable devices
      are taken away, and every ROM that is loaded fits the window submitted for it. If the first allocation succeeds,
      nothing is taken away, every window suffices for the ROMs below it, and none of them is skipped.
    */
    method PciHostBridgeResourceAllocator()
      returns (status: Status, loads: seq<Loaded>, rounds: nat, ghost gone: set<nat>, ghost settled: Status,
               ghost attempts: seq<Attempt>)
      requires Valid() && At(Submitting(0))
      modifies this, pool
      ensures Valid()
      ensures SettledAs(settled, rounds, attempts)
      ensures Adjustments(old(pool.children), old(pool.padding), attempts, gone)
      ensures status == (if settled != Success then settled else if NoneRefused() then Success else HostError)
      ensures settled == Success ==>
                if rounds == 0 then WindowsSuffice(0, |roots|) else WindowsAsAsked(rounds, |roots|)
      ensures settled != Success ==> loads == []
      ensures status == Success ==>
                Phases(trace) == Phases(old(trace)) + Tries(rounds) + [AllocateResources, SetResources, EndResourceAllocation]
      ensures TakenAway(old(pool.children), old(pool.padding), gone, 0)
      ensures rounds <= Weight(pool.devices, old(pool.children), old(pool.padding))
      ensures LoadsFit(loads)
      ensures status == Success ==> At(Released) && LoadsComplete(loads, |roots|)
      ensures status == Success && rounds == 0 ==>
                gone == {} && WindowsSuffice(0, |roots|) && NothingSkipped(loads)
      ensures status == Success && rounds == 0 ==> forall k, d: nat | 0 <= k < |roots| && d in loads[k].devices ::
                PowersOnly(k) && Honoured(k) ==> WellPlaced(loads[k], d)
    {
      hide TakenAway, WindowsSuffice, NothingSkipped, PowersOnly, Honoured, WellPlaced, Reached, After, Weight;
      hide Adjustments, WindowsAsAsked, Phases, Tries, AllSubmit, SomeRefuses, Refusals;
      loads := [];
      status, rounds, gone, attempts := Settle();
      settled := status;
      if status == Success {
        status, loads := Program();
        if status == Success && rounds == 0 {
          NoRomSkipped(loads);
          forall k, d: nat | 0 <= k < |roots| && d in loads[k].devices && PowersOnly(k) && Honoured(k)
            ensures WellPlaced(loads[k], d)
          {
            RomWellPlaced(loads, k, d);
          }
        }
      }
    }

    /** Every option ROM below a root bridge was loaded. */
    ghost predicate NothingSkipped(loads: seq<Loaded>)
      requires pool.Valid() && |loads| == |roots|
      reads pool
    {
      forall k, d: nat ::
        0 <= k < |roots| && OptionRoms.Below(pool.devices, pool.children, roots[k], d) && pool.devices[d].romSize > 0 ==>
          d in loads[k].devices
    }

    /** The Mem32 request of root bridge k is aligned to a power of two, and the ROMs below it have such sizes. */
    ghost predicate PowersOnly(k: nat)
      requires k < |roots| && pool.Valid()
      reads pool
    {
      && Multiples.PowerOfTwo(host.mem32(0, k).1 + 1)
      && forall d: nat :: OptionRoms.Below(pool.devices, pool.children, roots[k], d) && pool.devices[d].romSize > 0 ==>
           Multiples.PowerOfTwo(pool.devices[d].romSize)
    }

    /** The host bridge honours the alignment submitted for root bridge k. */
    ghost predicate Honoured(k: nat)
      requires k < |roots| && Sane(host, pool.devices)
      reads this`submitted
    {
      roots[k] in submitted && Mem32Base(k) % (submitted[roots[k]].1 + 1) == 0
    }

    /** A ROM loaded at the base of its window is naturally aligned there and ends within the window. */
    ghost predicate WellPlaced(l: Loaded, d: nat) {
      d < |pool.devices| && pool.devices[d].romSize > 0 &&
      l.base % pool.devices[d].romSize == 0 && l.base + pool.devices[d].romSize <= l.base + l.window
    }

    lemma RomWellPlaced(loads: seq<Loaded>, k: nat, d: nat)
      requires Valid() && WindowsSuffice(0, |roots|) && LoadsFit(loads) && LoadsComplete(loads, |roots|)
      requires k < |roots| && d in loads[k].devices && PowersOnly(k) && Honoured(k)
      ensures WellPlaced(loads[k], d)
    {
      assert loads[k] in loads && WindowSuffices(0, k);
      var max: nat :| LargestRom(k, max) && submitted[roots[k]].1 == OptionRoms.RomAlignment(host.mem32(0, k).1, max);
      OptionRoms.RomsAligned(host.mem32(0, k).1, max, loads[k].base, pool.devices[d].romSize);
    }

    /** Windows that suffice for the ROMs below them skip none of them. */
    lemma NoRomSkipped(loads: seq<Loaded>)
      requires Valid() && WindowsSuffice(0, |roots|) && LoadsFit(loads) && LoadsComplete(loads, |roots|)
      ensures NothingSkipped(loads)
    {
      forall k, d: nat | 0 <= k < |roots| && OptionRoms.Below(pool.devices, pool.children, roots[k], d) &&
                         pool.devices[d].romSize > 0
        ensures d in loads[k].devices
      {
        assert WindowSuffices(0, k);
        assert loads[k] in loads;
      }
    }

    /** Every step up to the allocation of resources succeeds; the second scan is one only with hot-plug support. */
    ghost predicate AllReady(scans: (nat, nat) -> bool, hotPlugInit: bool, controllersReady: bool, collects: nat -> bool) {
      && (forall k: nat :: k < |roots| ==> scans(0, k))
      && (hotPlugInit && hotPlug ==> controllersReady && forall k: nat :: k < |roots| ==> scans(1, k))
      && (forall k: nat :: k < |roots| ==> collects(k))
    }

    /** What is announced on the way to the allocation of resources: the bus phase twice with hot-plug support. */
    ghost function Announced(hotPlugInit: bool): seq<Phase> {
      [BeginBusAllocation, EndBusAllocation] +
      (if hotPlugInit && hotPlug then [BeginBusAllocation, EndBusAllocation] else []) + [BeginResourceAllocation]
    }

    /**
      PciHostBridgeEnumerator, as far as it talks to the host bridge: one scan of every root bridge, a second one if
      hot-plug controllers are to be initialised in between, then the collection of device information. `scans` and
      `collects` say whether each of those steps succeeds.
    */
    method PciHostBridgeEnumerator(scans: (nat, nat) -> bool, hotPlugInit: bool, controllersReady: bool, collects: nat -> bool)
      returns (ok: bool)
      requires Valid() && At(Begun)
      modifies this`trace
      ensures Valid()
      ensures ok <==> AllReady(scans, hotPlugInit, controllersReady, collects)
      ensures ok ==> At(Submitting(0)) && Phases(trace) == Phases(old(trace)) + Announced(hotPlugInit)
    {
      hide Sane, Consistent, Reached, Phases;
      Report(BeginBusAllocation);
      var k := 0;
      while k < |roots|
        invariant k <= |roots| && Valid() && At(InBuses(false))
        invariant Phases(trace) == Phases(old(trace)) + [BeginBusAllocation]
        invariant forall j: nat :: j < k ==> scans(0, j)
      {
        if !scans(0, k) {
          return false;
        }
        k := k + 1;
      }
      Report(EndBusAllocation);
      if hotPlugInit && hotPlug {
        if !controllersReady {
          return false;
        }
        Report(BeginBusAllocation);
        k := 0;
        while k < |roots|
          invariant k <= |roots| && Valid() && At(InBuses(true))
          invariant Phases(trace) == Phases(old(trace)) + [BeginBusAllocation, EndBusAllocation, BeginBusAllocation]
          invariant forall j: nat :: j < k ==> scans(1, j)
        {
          if !scans(1, k) {
            return false;
          }
          k := k + 1;
        }
        Report(EndBusAllocation);
      }
      Report(BeginResourceAllocation);
      k := 0;
      while k < |roots|
        invariant k <= |roots| && Valid() && At(Submitting(0))
        invariant Phases(trace) == Phases(old(trace)) + Announced(hotPlugInit)
        invariant forall j: nat :: j < k ==> collects(j)
      {
        if !collects(k) {
          return false;
        }
        k := k + 1;
      }
      return true;
    }

    /** PciEnumerator: whatever happens, the notifications keep to the protocol; if all goes well, they complete it. */
    method PciEnumerator(scans: (nat, nat) -> bool, hotPlugInit: bool, controllersReady: bool, collects: nat -> bool)
      returns (status: Status, loads: seq<Loaded>, ghost gone: set<nat>, ghost settled: Status, ghost rounds: nat,
               ghost attempts: seq<Attempt>)
      requires Valid() && At(Fresh)
      modifies this, pool
      ensures Valid()
      ensures status == Success ==> At(Finished)
      ensures status == Success ==>
                Phases(trace) == Phases(old(trace)) + [BeginEnumeration] + Announced(hotPlugInit) + Tries(rounds) +
                                 [AllocateResources, SetResources, EndResourceAllocation, EndEnumeration]
      ensures TakenAway(old(pool.children), old(pool.padding), gone, 0)
      ensures LoadsFit(loads)
      ensures var ready := AllReady(scans, hotPlugInit, controllersReady, collects);
              if ready then
                && SettledAs(settled, rounds, attempts)
                && Adjustments(old(pool.children), old(pool.padding), attempts, gone)
                && status == (if settled != Success then settled else if NoneRefused() then Success else HostError)
              else
                status == HostError && loads == [] && gone == {}
    {
      hide Sane, Consistent, After, Weight, SettledAs, Adjustments, AllReady, Reached, Phases, Tries, Announced;
      loads, gone, settled, rounds, attempts := [], {}, HostError, 0, [];
      AfterNothing(pool.devices, pool.children, pool.padding);
      Report(BeginEnumeration);
      var ok := PciHostBridgeEnumerator(scans, hotPlugInit, controllersReady, collects);
      if !ok {
        return HostError, loads, gone, settled, rounds, attempts;
      }
      var failed;
      status, loads, failed, gone, settled, attempts := PciHostBridgeResourceAllocator();
      rounds := failed;
      if status == Success {
        Report(EndEnumeration);
      }
    }
  }
}
