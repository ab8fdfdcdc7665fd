/** The resource request a root bridge submits as ACPI descriptors, and the reading of the host bridge's answer. */
module ResourceDescriptors {
  import opened AcpiDescriptors

  const ALL_ONES: nat := 0xFFFF_FFFF_FFFF_FFFF
  const RESOURCE_SATISFIED: nat := 0

  datatype Kind = Io | Mem32 | PMem32 | Mem64 | PMem64

  const KINDS := [Io, Mem32, PMem32, Mem64, PMem64]

  /** The top of a resource tree: what the root bridge asks for of one kind. */
  datatype Request = Request(length: nat, alignment: nat, hasChildren: bool)

  /** One value for each kind of resource. */
  datatype Five<T> = Five(io: T, mem32: T, pMem32: T, mem64: T, pMem64: T) {
    function Get(kind: Kind): T {
      match kind
      case Io => io
      case Mem32 => mem32
      case PMem32 => pMem32
      case Mem64 => mem64
      case PMem64 => pMem64
    }
  }

  predicate ResourceRequestExisted(r: Request) {
    r.hasChildren || r.length != 0
  }

  const ZERO := Descriptor(0, 0, 0, 0, 0, 0, 0, 0)
  const END := ZERO.(desc := END_TAG_DESCRIPTOR)

  /** What a request of each kind looks like as a descriptor. */
  function DescriptorOf(kind: Kind, r: Request): Descriptor {
    var common := ZERO.(desc := ADDRESS_SPACE_DESCRIPTOR, addrLen := r.length, addrRangeMax := r.alignment);
    match kind
    case Io => common.(resType := TYPE_IO, specificFlag := 1)
    case Mem32 => common.(resType := TYPE_MEM, specificFlag := 0, granularity := 32)
    case PMem32 => common.(resType := TYPE_MEM, specificFlag := 6, granularity := 32)
    case Mem64 => common.(resType := TYPE_MEM, specificFlag := 0, granularity := 64)
    case PMem64 => common.(resType := TYPE_MEM, specificFlag := 6, granularity := 64)
  }

  /** The descriptors of the requested kinds among the first i, in order. */
  function RequestedTo(requests: Five<Request>, i: nat): seq<Descriptor>
    requires i <= |KINDS|
  {
    if i == 0 then []
    else RequestedTo(requests, i - 1) +
         if ResourceRequestExisted(requests.Get(KINDS[i - 1])) then [DescriptorOf(KINDS[i - 1], requests.Get(KINDS[i - 1]))]
         else []
  }

  /** One block of the constructor: the descriptor of one kind goes to the next free place if the kind is requested. */
  method PutDescriptor(config: array<Descriptor>, ptr: nat, i: nat, requests: Five<Request>) returns (next: nat)
    requires i < |KINDS| && ptr < config.Length && config.Length == |RequestedTo(requests, |KINDS|)| + 1
    requires config[..ptr] == RequestedTo(requests, i)
    modifies config
    ensures ptr <= next < config.Length && config[..next] == RequestedTo(requests, i + 1)
    ensures forall j :: next <= j < config.Length ==> config[j] == old(config[j])
  {
    var kind := KINDS[i];
    next := ptr;
    RequestedGrows(requests, i + 1, |KINDS|);
    if ResourceRequestExisted(requests.Get(kind)) {
      config[ptr] := DescriptorOf(kind, requests.Get(kind));
      next := ptr + 1;
      assert config[..next] == old(config[..ptr]) + [config[ptr]];
    } else {
      assert RequestedTo(requests, i + 1) == RequestedTo(requests, i);
    }
  }

  /** A descriptor of a resource type, of addresses so many bits wide, with a type-specific flag. */
  predicate IsOf(d: Descriptor, resType: nat, granularity: nat, specificFlag: nat) {
    d.resType == resType && d.granularity == granularity && d.specificFlag == specificFlag
  }

  /** What is asked for is in one descriptor of its kind: the request's length is the length, its alignment the maximum. */
  ghost predicate AskedOnce(e: seq<Descriptor>, resType: nat, granularity: nat, specificFlag: nat, r: Request) {
    exists i: nat :: i < |e| && OnlyOne(e, i, resType, granularity, specificFlag) &&
                     e[i].addrLen == r.length && e[i].addrRangeMax == r.alignment
  }

  ghost predicate OnlyOne(e: seq<Descriptor>, i: nat, resType: nat, granularity: nat, specificFlag: nat)
    requires i < |e|
  {
    forall j :: 0 <= j < |e| ==> (IsOf(e[j], resType, granularity, specificFlag) <==> j == i)
  }

  ghost predicate NotAsked(e: seq<Descriptor>, resType: nat, granularity: nat, specificFlag: nat) {
    forall j :: 0 <= j < |e| ==> !IsOf(e[j], resType, granularity, specificFlag)
  }

  /** One descriptor if there is something to ask for, a child or a length, and otherwise none. */
  ghost predicate AsksFor(e: seq<Descriptor>, resType: nat, granularity: nat, specificFlag: nat, r: Request) {
    if r.hasChildren || r.length != 0 then AskedOnce(e, resType, granularity, specificFlag, r)
    else NotAsked(e, resType, granularity, specificFlag)
  }

  /** A list with a descriptor for each kind that is requested, and nothing for any other. */
  ghost predicate AsksForAll(e: seq<Descriptor>, requests: Five<Request>) {
    && (forall d :: d in e ==> d.desc == 0x8A)
    && AsksFor(e, 1, 0, 1, requests.io)
    && AsksFor(e, 0, 32, 0, requests.mem32)
    && AsksFor(e, 0, 32, 6, requests.pMem32)
    && AsksFor(e, 0, 64, 0, requests.mem64)
    && AsksFor(e, 0, 64, 6, requests.pMem64)
  }

  /** One descriptor more, of the kind asked about or of another one. */
  lemma AskedStep(e: seq<Descriptor>, d: Descriptor, resType: nat, granularity: nat, specificFlag: nat, r: Request)
    ensures !IsOf(d, resType, granularity, specificFlag) && NotAsked(e, resType, granularity, specificFlag) ==>
              NotAsked(e + [d], resType, granularity, specificFlag)
    ensures !IsOf(d, resType, granularity, specificFlag) && AskedOnce(e, resType, granularity, specificFlag, r) ==>
              AskedOnce(e + [d], resType, granularity, specificFlag, r)
    ensures IsOf(d, resType, granularity, specificFlag) && NotAsked(e, resType, granularity, specificFlag) &&
            d.addrLen == r.length && d.addrRangeMax == r.alignment ==>
              AskedOnce(e + [d], resType, granularity, specificFlag, r)
  {
    if !IsOf(d, resType, granularity, specificFlag) && AskedOnce(e, resType, granularity, specificFlag, r) {
      var i: nat :| i < |e| && OnlyOne(e, i, resType, granularity, specificFlag) &&
                    e[i].addrLen == r.length && e[i].addrRangeMax == r.alignment;
      assert OnlyOne(e + [d], i, resType, granularity, specificFlag);
    }
    if IsOf(d, resType, granularity, specificFlag) && NotAsked(e, resType, granularity, specificFlag) {
      assert OnlyOne(e + [d], |e|, resType, granularity, specificFlag);
    }
  }

  /** Type, width and flag of each kind in turn. */
  const LOOKS: seq<(nat, nat, nat)> := [(1, 0, 1), (0, 32, 0), (0, 32, 6), (0, 64, 0), (0, 64, 6)]

  /** How far the list has got with the kind at position t when the first i kinds are dealt with. */
  lemma {:induction false} RequestedAsks(requests: Five<Request>, i: nat, t: nat, resType: nat, granularity: nat,
                                         specificFlag: nat)
    requires i <= |KINDS| && t < |KINDS|
    requires (resType, granularity, specificFlag) == LOOKS[t]
    ensures var e := RequestedTo(requests, i);
            var r := requests.Get(KINDS[t]);
            if t < i && (r.hasChildren || r.length != 0) then AskedOnce(e, resType, granularity, specificFlag, r)
            else NotAsked(e, resType, granularity, specificFlag)
    ensures forall d :: d in RequestedTo(requests, i) ==> d.desc == 0x8A
  {
    hide AskedOnce, NotAsked, RequestedTo;
    RequestedStep(requests, i);
    if i == 0 {
      NothingAsked(resType, granularity, specificFlag);
    } else {
      var r := requests.Get(KINDS[i - 1]);
      RequestedAsks(requests, i - 1, t, resType, granularity, specificFlag);
      DescriptorAsks(i - 1, t, r);
      AskedStep(RequestedTo(requests, i - 1), DescriptorOf(KINDS[i - 1], r), resType, granularity, specificFlag,
                requests.Get(KINDS[t]));
    }
  }

  lemma RequestedStep(requests: Five<Request>, i: nat)
    requires i <= |KINDS|
    ensures RequestedTo(requests, 0) == []
    ensures i > 0 ==>
              var kind := KINDS[i - 1];
              RequestedTo(requests, i) ==
              if ResourceRequestExisted(requests.Get(kind))
              then RequestedTo(requests, i - 1) + [DescriptorOf(kind, requests.Get(kind))]
              else RequestedTo(requests, i - 1)
  {
  }

  lemma NothingAsked(resType: nat, granularity: nat, specificFlag: nat)
    ensures NotAsked([], resType, granularity, specificFlag)
  {
  }

  /** What the constructor puts before the end tag. */
  ghost function Requested(requests: Five<Request>): seq<Descriptor> {
    var body := RequestedTo(requests, |KINDS|);
    if body == [] then [ZERO.(desc := ADDRESS_SPACE_DESCRIPTOR)] else body
  }

  lemma RequestedIsAskedFor(requests: Five<Request>)
    ensures AsksForAll(Requested(requests), requests)
  {
    hide RequestedTo, AskedOnce;
    RequestedAsks(requests, 5, 0, 1, 0, 1);
    RequestedAsks(requests, 5, 1, 0, 32, 0);
    RequestedAsks(requests, 5, 2, 0, 32, 6);
    RequestedAsks(requests, 5, 3, 0, 64, 0);
    RequestedAsks(requests, 5, 4, 0, 64, 6);
    if RequestedTo(requests, 5) == [] {
      NothingMeansNone(requests);
    }
  }

  lemma NothingMeansNone(requests: Five<Request>)
    requires RequestedTo(requests, |KINDS|) == []
    ensures forall kind :: !ResourceRequestExisted(requests.Get(kind))
  {
    forall kind
      ensures !ResourceRequestExisted(requests.Get(kind))
    {
      RequestedGrows(requests, KindIndex(kind) + 1, |KINDS|);
    }
  }

  /** The descriptor made for one kind is of that kind, and asks for what was requested. */
  lemma DescriptorAsks(i: nat, t: nat, r: Request)
    requires i < |KINDS| && t < |KINDS|
    ensures var d := DescriptorOf(KINDS[i], r);
            var (resType, granularity, specificFlag) := LOOKS[t];
            && (IsOf(d, resType, granularity, specificFlag) <==> i == t)
            && d.desc == 0x8A && d.addrLen == r.length && d.addrRangeMax == r.alignment
  {
  }

  /**
    Fill a buffer with one descriptor for each requested kind and an end tag; without requests, with one empty descriptor.
    In the buffer, the descriptor of each requested kind holds the length and the alignment asked for.
  */
  method ConstructAcpiResourceRequestor(requests: Five<Request>) returns (config: array<Descriptor>)
    ensures fresh(config)
    ensures config.Length > 0 && config[config.Length - 1].desc == END_TAG_DESCRIPTOR
    ensures AsksForAll(config[..config.Length - 1], requests)
    ensures var body := RequestedTo(requests, |KINDS|);
            config[..] == (if body == [] then [ZERO.(desc := ADDRESS_SPACE_DESCRIPTOR)] else body) + [END]
  {
    hide AsksForAll;
    var numConfig := 0;
    if ResourceRequestExisted(requests.io) { numConfig := numConfig + 1; }
    if ResourceRequestExisted(requests.mem32) { numConfig := numConfig + 1; }
    if ResourceRequestExisted(requests.pMem32) { numConfig := numConfig + 1; }
    if ResourceRequestExisted(requests.mem64) { numConfig := numConfig + 1; }
    if ResourceRequestExisted(requests.pMem64) { numConfig := numConfig + 1; }
    RequestedCount(requests);
    if numConfig != 0 {
      config := new Descriptor[numConfig + 1](_ => ZERO);
      FillDescriptors(config, requests);
    } else {
      config := new Descriptor[2](_ => ZERO);
      config[0] := config[0].(desc := ADDRESS_SPACE_DESCRIPTOR);
      config[1] := config[1].(desc := END_TAG_DESCRIPTOR);
    }
    assert config[..] == Requested(requests) + [END];
    assert config[..config.Length - 1] == Requested(requests);
    RequestedIsAskedFor(requests);
  }

  method FillDescriptors(config: array<Descriptor>, requests: Five<Request>)
    requires config.Length == |RequestedTo(requests, 5)| + 1
    requires forall j :: 0 <= j < config.Length ==> config[j] == ZERO
    modifies config
    ensures config[..] == RequestedTo(requests, 5) + [END]
  {
    assert config[..0] == RequestedTo(requests, 0);
    hide RequestedTo;
    var ptr := 0;
    ptr := PutDescriptor(config, ptr, 0, requests);
    ptr := PutDescriptor(config, ptr, 1, requests);
    ptr := PutDescriptor(config, ptr, 2, requests);
    ptr := PutDescriptor(config, ptr, 3, requests);
    ptr := PutDescriptor(config, ptr, 4, requests);
    config[ptr] := config[ptr].(desc := END_TAG_DESCRIPTOR);
    assert |config[..ptr]| == ptr;
    assert config[..] == config[..ptr] + [config[ptr]];
  }

  lemma RequestedCount(requests: Five<Request>)
    ensures |RequestedTo(requests, 5)| ==
            (if ResourceRequestExisted(requests.io) then 1 else 0) + (if ResourceRequestExisted(requests.mem32) then 1 else 0) +
            (if ResourceRequestExisted(requests.pMem32) then 1 else 0) + (if ResourceRequestExisted(requests.mem64) then 1 else 0) +
            (if ResourceRequestExisted(requests.pMem64) then 1 else 0)
  {
    assert RequestedTo(requests, 0) == [];
    assert |RequestedTo(requests, 1)| == if ResourceRequestExisted(requests.io) then 1 else 0;
    assert |RequestedTo(requests, 2)| == |RequestedTo(requests, 1)| + if ResourceRequestExisted(requests.mem32) then 1 else 0;
    assert |RequestedTo(requests, 3)| == |RequestedTo(requests, 2)| + if ResourceRequestExisted(requests.pMem32) then 1 else 0;
    assert |RequestedTo(requests, 4)| == |RequestedTo(requests, 3)| + if ResourceRequestExisted(requests.mem64) then 1 else 0;
  }

  lemma {:induction false} RequestedGrows(requests: Five<Request>, i: nat, j: nat)
    requires i <= j <= |KINDS|
    ensures |RequestedTo(requests, i)| <= |RequestedTo(requests, j)|
  {
    if i < j {
      RequestedGrows(requests, i, j - 1);
    }
  }

  // ---------------------------------------------------------- reading an answer

  /** Bits 1 and 2 of a byte: (flag & 0x06) != 0. */
  predicate PrefetchBits(flag: nat) {
    flag / 2 % 4 != 0
  }

  /** GetResourceBase reads a descriptor as being about this kind. */
  predicate BaseOf(d: Descriptor, kind: Kind) {
    match kind
    case Io => d.resType == TYPE_IO
    case Mem32 => d.resType == TYPE_MEM && d.granularity == 32 && !PrefetchBits(d.specificFlag)
    case PMem32 => d.resType == TYPE_MEM && d.granularity == 32 && PrefetchBits(d.specificFlag)
    case Mem64 => d.resType == TYPE_MEM && d.granularity == 64 && !PrefetchBits(d.specificFlag)
    case PMem64 => d.resType == TYPE_MEM && d.granularity == 64 && PrefetchBits(d.specificFlag)
  }

  /** GetResourceAllocationStatus compares the whole flag instead. */
  predicate StatusOf(d: Descriptor, kind: Kind) {
    match kind
    case Io => d.resType == TYPE_IO
    case Mem32 => d.resType == TYPE_MEM && d.granularity == 32 && d.specificFlag != 6
    case PMem32 => d.resType == TYPE_MEM && d.granularity == 32 && d.specificFlag == 6
    case Mem64 => d.resType == TYPE_MEM && d.granularity == 64 && d.specificFlag != 6
    case PMem64 => d.resType == TYPE_MEM && d.granularity == 64 && d.specificFlag == 6
  }

  /** The value of the last of the first i descriptors that is about the kind; none leaves the initial value. */
  ghost function LastBase(config: seq<Descriptor>, i: nat, kind: Kind): nat
    requires i <= |config|
  {
    if i == 0 then ALL_ONES
    else if BaseOf(config[i - 1], kind) && config[i - 1].addrTranslationOffset == RESOURCE_SATISFIED
    then config[i - 1].addrRangeMin
    else LastBase(config, i - 1, kind)
  }

  ghost function LastStatus(config: seq<Descriptor>, i: nat, kind: Kind, initial: nat): nat
    requires i <= |config|
  {
    if i == 0 then initial
    else if StatusOf(config[i - 1], kind) then config[i - 1].addrTranslationOffset
    else LastStatus(config, i - 1, kind, initial)
  }

  /** m descriptors, then something else. */
  ghost predicate Listing(config: seq<Descriptor>, m: nat) {
    && m < |config|
    && config[m].desc != ADDRESS_SPACE_DESCRIPTOR
    && forall i :: 0 <= i < m ==> config[i].desc == ADDRESS_SPACE_DESCRIPTOR
  }

  method GetResourceBase(config: seq<Descriptor>, ghost m: nat) returns (base: Five<nat>)
    requires Listing(config, m)
    ensures forall kind :: base.Get(kind) == LastBase(config, m, kind)
  {
    base := Five(ALL_ONES, ALL_ONES, ALL_ONES, ALL_ONES, ALL_ONES);
    var temp := 0;
    while config[temp].desc == ADDRESS_SPACE_DESCRIPTOR
      invariant temp <= m
      invariant forall kind :: base.Get(kind) == LastBase(config, temp, kind)
      decreases m - temp
    {
      var ptr := config[temp];
      if ptr.addrTranslationOffset == RESOURCE_SATISFIED {
        if ptr.resType == 0 {
          if ptr.granularity == 32 {
            base := if PrefetchBits(ptr.specificFlag) then base.(pMem32 := ptr.addrRangeMin) else base.(mem32 := ptr.addrRangeMin);
          }
          if ptr.granularity == 64 {
            base := if PrefetchBits(ptr.specificFlag) then base.(pMem64 := ptr.addrRangeMin) else base.(mem64 := ptr.addrRangeMin);
          }
        } else if ptr.resType == 1 {
          base := base.(io := ptr.addrRangeMin);
        }
      }
      temp := temp + 1;
    }
  }

  method GetResourceAllocationStatus(config: seq<Descriptor>, initial: Five<nat>, ghost m: nat) returns (status: Five<nat>)
    requires Listing(config, m)
    ensures forall kind :: status.Get(kind) == LastStatus(config, m, kind, initial.Get(kind))
  {
    status := initial;
    var temp := 0;
    while config[temp].desc == ADDRESS_SPACE_DESCRIPTOR
      invariant temp <= m
      invariant forall kind :: status.Get(kind) == LastStatus(config, temp, kind, initial.Get(kind))
      decreases m - temp
    {
      var ptr := config[temp];
      var resStatus := ptr.addrTranslationOffset;
      if ptr.resType == 0 {
        if ptr.granularity == 32 {
          status := if ptr.specificFlag == 6 then status.(pMem32 := resStatus) else status.(mem32 := resStatus);
        }
        if ptr.granularity == 64 {
          status := if ptr.specificFlag == 6 then status.(pMem64 := resStatus) else status.(mem64 := resStatus);
        }
      } else if ptr.resType == 1 {
        status := status.(io := resStatus);
      }
      temp := temp + 1;
    }
  }

  /** Position j is that of the last of the first i descriptors that are about something, or -1 if none is. */
  ghost predicate LastAbout(config: seq<Descriptor>, i: nat, about: Descriptor -> bool, j: int)
    requires i <= |config|
  {
    && -1 <= j < i
    && (j >= 0 ==> about(config[j]))
    && (forall t :: j < t < i ==> !about(config[t]))
  }

  /** The base read for a kind is the start of its last satisfied descriptor; without one it is all ones. */
  lemma {:induction false} LastBaseIs(config: seq<Descriptor>, i: nat, kind: Kind, j: int)
    requires i <= |config|
    requires LastAbout(config, i, (d: Descriptor) => BaseOf(d, kind) && d.addrTranslationOffset == 0, j)
    ensures LastBase(config, i, kind) == if j >= 0 then config[j].addrRangeMin else 0xFFFF_FFFF_FFFF_FFFF
  {
    if j < i - 1 {
      assert !(BaseOf(config[i - 1], kind) && config[i - 1].addrTranslationOffset == 0);
      LastBaseIs(config, i - 1, kind, j);
    }
  }

  /** The status read for a kind is that of its last descriptor; without one it is the initial status. */
  lemma {:induction false} LastStatusIs(config: seq<Descriptor>, i: nat, kind: Kind, initial: nat, j: int)
    requires i <= |config| && LastAbout(config, i, d => StatusOf(d, kind), j)
    ensures LastStatus(config, i, kind, initial) == if j >= 0 then config[j].addrTranslationOffset else initial
  {
    if j < i - 1 {
      assert !StatusOf(config[i - 1], kind);
      LastStatusIs(config, i - 1, kind, initial, j);
    }
  }

  /** If the kind is mentioned, the initial status does not matter. */
  lemma {:induction false} MentionDecides(config: seq<Descriptor>, i: nat, kind: Kind, initial: nat, initial': nat)
    requires i <= |config| && exists j: nat :: j < i && StatusOf(config[j], kind)
    ensures LastStatus(config, i, kind, initial) == LastStatus(config, i, kind, initial')
  {
    if !StatusOf(config[i - 1], kind) {
      MentionDecides(config, i - 1, kind, initial, initial');
    }
  }

  /**
    A descriptor is about one kind at most, for either reader, and about some kind if it is for I/O, or for memory with
    addresses of 32 or 64 bits. The readers take it for different kinds exactly if it is for such memory and has a
    prefetch bit set in a flag other than 6.
  */
  lemma ReadersDiffer(d: Descriptor, kind: Kind, other: Kind)
    requires BaseOf(d, kind) && StatusOf(d, other)
    ensures forall k :: BaseOf(d, k) <==> k == kind
    ensures forall k :: StatusOf(d, k) <==> k == other
    ensures kind.Io? <==> d.resType == 1
    ensures kind.Mem32? || kind.PMem32? <==> d.resType == 0 && d.granularity == 32
    ensures kind.Mem64? || kind.PMem64? <==> d.resType == 0 && d.granularity == 64
    ensures kind != other <==> d.resType == 0 && d.specificFlag % 8 >= 2 && d.specificFlag != 6
    ensures kind != other ==> kind == if d.granularity == 32 then PMem32 else PMem64
  {
  }

  /** A descriptor is read as being about some kind by both readers or by neither. */
  lemma ReadIfKnown(d: Descriptor)
    ensures (exists kind :: BaseOf(d, kind)) <==> d.resType == 1 || (d.resType == 0 && d.granularity in {32, 64})
    ensures (exists kind :: StatusOf(d, kind)) <==> d.resType == 1 || (d.resType == 0 && d.granularity in {32, 64})
  {
    if d.resType == 1 {
      assert BaseOf(d, Io) && StatusOf(d, Io);
    } else if d.resType == 0 && d.granularity == 32 {
      assert BaseOf(d, Mem32) || BaseOf(d, PMem32);
      assert StatusOf(d, Mem32) || StatusOf(d, PMem32);
    } else if d.resType == 0 && d.granularity == 64 {
      assert BaseOf(d, Mem64) || BaseOf(d, PMem64);
      assert StatusOf(d, Mem64) || StatusOf(d, PMem64);
    }
  }

  // ---------------------------------------------------------------- round trip

  /** The host bridge echoes each descriptor with a base address and a status of its own. */
  ghost function Echo(d: Descriptor, base: nat, status: nat): Descriptor {
    d.(addrRangeMin := base, addrTranslationOffset := status)
  }

  ghost function EchoedTo(requests: Five<Request>, bases: Five<nat>, statuses: Five<nat>, i: nat): (e: seq<Descriptor>)
    requires i <= |KINDS|
    ensures |e| == |RequestedTo(requests, i)|
    ensures forall j :: 0 <= j < |e| ==> Echo(e[j], 0, 0) == RequestedTo(requests, i)[j]
  {
    if i == 0 then []
    else
      var k := KINDS[i - 1];
      EchoedTo(requests, bases, statuses, i - 1) +
      if ResourceRequestExisted(requests.Get(k))
      then [Echo(DescriptorOf(k, requests.Get(k)), bases.Get(k), statuses.Get(k))]
      else []
  }

  /** A constructed descriptor is read as being about the kind it was constructed for, and about no other. */
  lemma KindsAreDistinct(kind: Kind, other: Kind, r: Request, base: nat, status: nat)
    ensures BaseOf(Echo(DescriptorOf(kind, r), base, status), other) <==> kind == other
    ensures StatusOf(Echo(DescriptorOf(kind, r), base, status), other) <==> kind == other
  {
  }

  /** Descriptors behind the first i do not matter to what the first i say. */
  lemma {:induction false} LastPrefix(config: seq<Descriptor>, more: seq<Descriptor>, i: nat, kind: Kind, initial: nat)
    requires i <= |config|
    ensures LastBase(config + more, i, kind) == LastBase(config, i, kind)
    ensures LastStatus(config + more, i, kind, initial) == LastStatus(config, i, kind, initial)
  {
    if i > 0 {
      LastPrefix(config, more, i - 1, kind, initial);
    }
  }

  /** What one descriptor more changes in what is read. */
  lemma LastAdded(e: seq<Descriptor>, d: Descriptor, kind: Kind, initial: nat)
    ensures LastBase(e + [d], |e| + 1, kind) ==
            if BaseOf(d, kind) && d.addrTranslationOffset == RESOURCE_SATISFIED then d.addrRangeMin
            else LastBase(e, |e|, kind)
    ensures LastStatus(e + [d], |e| + 1, kind, initial) ==
            if StatusOf(d, kind) then d.addrTranslationOffset else LastStatus(e, |e|, kind, initial)
  {
    LastPrefix(e, [d], |e|, kind, initial);
  }

  /** The base read for a kind from the first i echoed descriptors. */
  lemma {:induction false} EchoBase(requests: Five<Request>, bases: Five<nat>, statuses: Five<nat>, i: nat, t: nat)
    requires i <= |KINDS| && t < |KINDS|
    ensures var e := EchoedTo(requests, bases, statuses, i);
            var k := KINDS[t];
            LastBase(e, |e|, k) ==
            if t < i && ResourceRequestExisted(requests.Get(k)) && statuses.Get(k) == RESOURCE_SATISFIED then bases.Get(k)
            else ALL_ONES
  {
    hide DescriptorOf, BaseOf, StatusOf, ResourceRequestExisted, EchoedTo, LastBase, LastStatus;
    if i == 0 {
      NothingEchoed(requests, bases, statuses, KINDS[t], 0);
    } else {
      EchoBase(requests, bases, statuses, i - 1, t);
      EchoStep(requests, bases, statuses, i - 1);
      IndexOfKind(i - 1, t);
      if ResourceRequestExisted(requests.Get(KINDS[i - 1])) {
        var e := EchoedTo(requests, bases, statuses, i - 1);
        var k := KINDS[i - 1];
        var d := Echo(DescriptorOf(k, requests.Get(k)), bases.Get(k), statuses.Get(k));
        KindsAreDistinct(k, KINDS[t], requests.Get(k), bases.Get(k), statuses.Get(k));
        LastAdded(e, d, KINDS[t], 0);
      }
    }
  }

  /** The status read for a kind from the first i echoed descriptors. */
  lemma {:induction false} EchoStatus(requests: Five<Request>, bases: Five<nat>, statuses: Five<nat>, i: nat, t: nat,
                                      initial: nat)
    requires i <= |KINDS| && t < |KINDS|
    ensures var e := EchoedTo(requests, bases, statuses, i);
            var k := KINDS[t];
            LastStatus(e, |e|, k, initial) ==
            if t < i && ResourceRequestExisted(requests.Get(k)) then statuses.Get(k) else initial
  {
    hide DescriptorOf, BaseOf, StatusOf, ResourceRequestExisted, EchoedTo, LastBase, LastStatus;
    if i == 0 {
      NothingEchoed(requests, bases, statuses, KINDS[t], initial);
    } else {
      EchoStatus(requests, bases, statuses, i - 1, t, initial);
      EchoStep(requests, bases, statuses, i - 1);
      IndexOfKind(i - 1, t);
      if ResourceRequestExisted(requests.Get(KINDS[i - 1])) {
        var e := EchoedTo(requests, bases, statuses, i - 1);
        var k := KINDS[i - 1];
        var d := Echo(DescriptorOf(k, requests.Get(k)), bases.Get(k), statuses.Get(k));
        KindsAreDistinct(k, KINDS[t], requests.Get(k), bases.Get(k), statuses.Get(k));
        LastAdded(e, d, KINDS[t], initial);
      }
    }
  }

  lemma NothingEchoed(requests: Five<Request>, bases: Five<nat>, statuses: Five<nat>, kind: Kind, initial: nat)
    ensures var e := EchoedTo(requests, bases, statuses, 0);
            e == [] && LastBase(e, |e|, kind) == ALL_ONES && LastStatus(e, |e|, kind, initial) == initial
  {
  }

  /** One kind more adds its echoed descriptor if it was requested, and nothing if not. */
  lemma EchoStep(requests: Five<Request>, bases: Five<nat>, statuses: Five<nat>, i: nat)
    requires i < |KINDS|
    ensures var k := KINDS[i];
            var e := EchoedTo(requests, bases, statuses, i);
            EchoedTo(requests, bases, statuses, i + 1) ==
            if ResourceRequestExisted(requests.Get(k))
            then e + [Echo(DescriptorOf(k, requests.Get(k)), bases.Get(k), statuses.Get(k))] else e
  {
  }

  lemma IndexOfKind(i: nat, t: nat)
    requires i < |KINDS| && t < |KINDS|
    ensures KINDS[i] == KINDS[t] <==> i == t
  {
  }

  /** The constructed descriptors, echoed; without requests, the empty one with whatever the host bridge puts there. */
  ghost function Answer(requests: Five<Request>, bases: Five<nat>, statuses: Five<nat>, emptyBase: nat,
                        emptyStatus: nat): seq<Descriptor>
  {
    var body := EchoedTo(requests, bases, statuses, |KINDS|);
    if body == [] then [Echo(ZERO.(desc := ADDRESS_SPACE_DESCRIPTOR), emptyBase, emptyStatus)] else body
  }

  /** What an answer to no request says: nothing of any kind. */
  lemma EmptyAnswer(requests: Five<Request>, bases: Five<nat>, statuses: Five<nat>, emptyBase: nat, emptyStatus: nat,
                    kind: Kind, initial: nat)
    requires EchoedTo(requests, bases, statuses, |KINDS|) == []
    ensures var answer := Answer(requests, bases, statuses, emptyBase, emptyStatus);
            && LastBase(answer, |answer|, kind) == ALL_ONES && LastStatus(answer, |answer|, kind, initial) == initial
            && !ResourceRequestExisted(requests.Get(kind))
  {
    hide EchoedTo, LastBase, LastStatus, ResourceRequestExisted;
    EmptyMeansNone(requests, bases, statuses, kind);
    EmptySaysNothing(emptyBase, emptyStatus, kind, initial);
  }

  lemma AnswerBase(requests: Five<Request>, bases: Five<nat>, statuses: Five<nat>, emptyBase: nat, emptyStatus: nat,
                   kind: Kind)
    ensures var answer := Answer(requests, bases, statuses, emptyBase, emptyStatus);
            LastBase(answer, |answer|, kind) ==
            if ResourceRequestExisted(requests.Get(kind)) && statuses.Get(kind) == RESOURCE_SATISFIED
            then bases.Get(kind) else ALL_ONES
  {
    hide EchoedTo, LastBase, ResourceRequestExisted, Echo;
    if EchoedTo(requests, bases, statuses, |KINDS|) == [] {
      EmptyAnswer(requests, bases, statuses, emptyBase, emptyStatus, kind, 0);
    } else {
      EchoBase(requests, bases, statuses, |KINDS|, KindIndex(kind));
    }
  }

  lemma AnswerStatus(requests: Five<Request>, bases: Five<nat>, statuses: Five<nat>, emptyBase: nat, emptyStatus: nat,
                     kind: Kind, initial: nat)
    ensures var answer := Answer(requests, bases, statuses, emptyBase, emptyStatus);
            LastStatus(answer, |answer|, kind, initial) ==
            if ResourceRequestExisted(requests.Get(kind)) then statuses.Get(kind) else initial
  {
    hide EchoedTo, LastStatus, ResourceRequestExisted, Echo;
    if EchoedTo(requests, bases, statuses, |KINDS|) == [] {
      EmptyAnswer(requests, bases, statuses, emptyBase, emptyStatus, kind, initial);
    } else {
      EchoStatus(requests, bases, statuses, |KINDS|, KindIndex(kind), initial);
    }
  }

  lemma AnswerListing(requests: Five<Request>, bases: Five<nat>, statuses: Five<nat>, emptyBase: nat, emptyStatus: nat)
    ensures var answer := Answer(requests, bases, statuses, emptyBase, emptyStatus); Listing(answer + [END], |answer|)
  {
    hide EchoedTo;
    EchoListed(requests, bases, statuses, |KINDS|);
    EndsListing(Answer(requests, bases, statuses, emptyBase, emptyStatus));
  }

  /**
    The round trip: submit any subset of the five kinds, let the host bridge fill in bases and statuses, and read the
    answer back. Each requested and satisfied kind gets its base and every other kind all ones; each requested kind
    gets its status and every other kind keeps the one it had.
  */
  lemma RoundTrip(requests: Five<Request>, bases: Five<nat>, statuses: Five<nat>, emptyBase: nat, emptyStatus: nat,
                  initial: Five<nat>, kind: Kind)
    ensures var answer := Answer(requests, bases, statuses, emptyBase, emptyStatus);
            var m := |answer|;
            && Listing(answer + [END], m)
            && LastBase(answer + [END], m, kind) ==
               (if ResourceRequestExisted(requests.Get(kind)) && statuses.Get(kind) == RESOURCE_SATISFIED
                then bases.Get(kind) else ALL_ONES)
            && LastStatus(answer + [END], m, kind, initial.Get(kind)) ==
               if ResourceRequestExisted(requests.Get(kind)) then statuses.Get(kind) else initial.Get(kind)
  {
    hide *;
    var answer := Answer(requests, bases, statuses, emptyBase, emptyStatus);
    AnswerListing(requests, bases, statuses, emptyBase, emptyStatus);
    AnswerBase(requests, bases, statuses, emptyBase, emptyStatus, kind);
    AnswerStatus(requests, bases, statuses, emptyBase, emptyStatus, kind, initial.Get(kind));
    LastPrefix(answer, [END], |answer|, kind, initial.Get(kind));
  }

  /** The empty descriptor, of type memory and granularity 0, is about no kind. */
  lemma EmptySaysNothing(base: nat, status: nat, kind: Kind, initial: nat)
    ensures var d := [Echo(ZERO.(desc := ADDRESS_SPACE_DESCRIPTOR), base, status)];
            LastBase(d, 1, kind) == ALL_ONES && LastStatus(d, 1, kind, initial) == initial
  {
  }

  lemma EndsListing(answer: seq<Descriptor>)
    requires forall d :: d in answer ==> d.desc == ADDRESS_SPACE_DESCRIPTOR
    ensures Listing(answer + [END], |answer|)
  {
  }

  function KindIndex(kind: Kind): (t: nat)
    ensures t < |KINDS| && KINDS[t] == kind
  {
    match kind case Io => 0 case Mem32 => 1 case PMem32 => 2 case Mem64 => 3 case PMem64 => 4
  }

  lemma {:induction false} EchoListed(requests: Five<Request>, bases: Five<nat>, statuses: Five<nat>, i: nat)
    requires i <= |KINDS|
    ensures forall d :: d in EchoedTo(requests, bases, statuses, i) ==> d.desc == ADDRESS_SPACE_DESCRIPTOR
  {
    if i > 0 {
      EchoListed(requests, bases, statuses, i - 1);
    }
  }

  lemma EmptyMeansNone(requests: Five<Request>, bases: Five<nat>, statuses: Five<nat>, kind: Kind)
    requires EchoedTo(requests, bases, statuses, |KINDS|) == []
    ensures !ResourceRequestExisted(requests.Get(kind))
  {
    NothingMeansNone(requests);
  }
}
