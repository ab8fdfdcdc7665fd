# A model of the PCI bus enumerator and of the CMOS monotonic counter

This project models `ByoModulePkg/PciBusDxe`, the driver that enumerates a PCI hierarchy, and
`ByoModulePkg/MonotonicCounterRuntimeCmosDxe`, and proves what they promise. `dafny verify dfyconfig.toml` checks it all.

**Bus numbering.** The physical topology is an unbounded tree (`PciTopology`), the three bus number registers of its bridges
are a register file, and every configuration access the driver makes goes through `ConfigSpace.ConfigFabric`, which routes
it by the registers as they are at that moment (section 3.2.5 of the PCI-to-PCI Bridge Architecture Specification 1.2). The
numbering of a depth-first walk is given in closed form (`BusPlan`): ordinals in the flat list of available bus numbers.
`BusScan`, `BusAssign` and `BusReset` are the three walks, `BusNumberRanges` hands out numbers from gapped ranges, and
`RootBridgeEnumerator` sorts the ranges, resets, scans, reports and restores; `BusReach` is the reset between two
enumerations. `BusPaths` says what the totals of the plan are, as sums over the paths of all bridges. `BusWalk` holds the invariant the two
numbering walks share: bridges on the way to the bus being walked nest and reach to 255, finished siblings hold smaller
disjoint intervals, unvisited bridges are cleared.

**Resources.** `DeviceTree`, `ResourceRejection` and `HostBridgeAllocator` are the retry loop that gives devices up until
the host bridge accepts, with a host bridge that may answer anything; `ResourceDescriptors` is the ACPI form of requests and
answers (section 6.4.3.5.1 of the ACPI specification); `OptionRoms` is the window for option ROMs. The phase notifications
are checked against a protocol automaton, and the phases of a successful run are given in full.

**Base address registers.** `BarSizing` probes registers whose writable bits are arbitrary (section 6.2.5.1 of the PCI Local
Bus Specification 3.0); `BarShapes` says what power-of-two registers are recorded as; `BarAlignment` rounds alignments.

**Attributes.** `BitSets`, `AttributeBits`, `AttributeTree`, `AttributeOffers` and `DeviceAttributes` are determination of supported
attributes and the Set, Enable and Disable operations (section 13.4 of the UEFI Specification 2.6), with the rule that one
VGA device per segment is active as an invariant of every operation.

**Monotonic counter.** `MonotonicCounter` is a state machine over calls, handler runs and reboots, and the driver over CMOS
bytes that implements it (sections 7.5 and 8.5 of the UEFI Specification 2.6).

`Multiples` holds the arithmetic on multiples and powers of two, `AcpiDescriptors` the descriptor record.

## How to read the contracts

- Ghost parameters say where a call stands: `flat` is the flat list of bus numbers, `o` the ordinal of the bus, `p` its path
  from the root bus, `bus` the physical bus, `m` and `end` the position of the end tag of a descriptor list.
- A walk whose outcome is `LostBit` has met one of the UINT8 casts at `PciLib.c:951` or `:957` dropping a bit. The source
  goes on with a wrong bus number; the model follows the run up to that point and says exactly when it is reached:
  `BusScan.FirstStop` is the first request of the plan that leaves the list, `BusScan.Verdict` what becomes of it.
- `fabric.Routed(since)` says that every access since that trace was claimed by one chain of bridges only.
- `attempts` in `HostBridgeAllocator` lists the adjustments of a run of the retry loop, `settled` how that loop ended; `r` in
  `DeviceAttributes` is what a request asks of the device once it is cut down.
- `uninitialised` in `BusAssign` and `BusReset` is the multi-function bit of the header buffer before anything was read into
  it; both walks look at that bit for an absent function 0. The results hold for either value.
- The registers are assumed cleared or nested before the first reset, since a reset through arbitrary registers cannot be
  routed. Whatever an earlier scan left behind is nested.
- A well-formed topology has no function 1 to 7 in a slot without a multi-function function 0.
- The number of a root bus is taken to be the start of the lowest range its host bridge offers, which is where
  `PciRootBridgeEnumerator` starts to scan.
- Devices of `DeviceTree` and `AttributeTree` are numbered so that parents come first, which any finite tree allows.
- Some methods of one source function are split in the model (the body of an inner loop, the branches of `PciParseBar`); the
  `## Model` table names the ones that carry a property.

## What the code does not do as documented

- `BarShapes.WideExactIff`: a 64-bit BAR whose upper half is absent keeps the masked lower half as its length, 2^32 less
  the size, where a comment announces that the lower half is checked again (`PciEnumeratorSupport.c:1842-1853`).
- `BarAlignment.LoopEnds`: rounding the all-ones alignment never ends.
- `AttributeOffers.SnoopingVgaConflicts` with `DeviceAttributes.AttributePool.SetAttributes`: Set may report
  EFI_UNSUPPORTED with its first half done; Enable refused by the root bridge leaves the attributes of the device and its
  bridges set.
- `AttributeTree.SnoopedBits`: the palette-snoop check applies a command-register bit to attributes
  (`PciIo.c:1437-1452`), where it means a primary IDE decoder.
- `MonotonicCounter.LateHandlerRepeats`: a count can be returned twice if the overflow handler is too late before a reboot.
- `MonotonicCounter.UsedUpGoesDown`: with the high half used up the counter starts over, below counts already returned.
- `BusNumberRanges.PciAllocateBusNumber`: near bus 255 a shortage of numbers can be reported as success;
  `BusScan.ScanBelow`: the bridge that asked for one is then given bus 0.
- `BusPlan.WideReservation`: an SR-IOV function that reserves 256 buses is given none, since the UINT16 increment is cast to
  8 bits (`PciLib.c:1267`); `BusPlan.WidePadding`: nor is a bridge that asks for 256 buses of hot-plug padding
  (`PciLib.c:1240`). `BusPlan.TotalDemand` has the exact condition.
- `RootBridgeEnumerator.WideRootPadding`: padding at the root bridge is summed in 8 bits (`PciLib.c:1238`), so that 256 buses
  asked for in all count as none and the enumeration is reported as a success. `RootBridgeEnumerator.GoesAsAsked` has the
  exact condition.
- `ResourceDescriptors.ReadersDiffer`: `GetResourceBase` masks the type-specific flag (`PciEnumerator.c:1363`) where
  `GetResourceAllocationStatus` compares all of it (`PciEnumerator.c:691`), so that for other flags with a prefetch bit the
  base and the status of one descriptor go to different types.
- `BusReach.ResetBetween`: the reset between the two enumerations of `PciHostBridgeEnumerator` starts from the first range as
  listed (`PciLib.c:1499-1519`), unlike the enumeration itself, which sorts; it clears every bridge only if that is the
  lowest. The second enumeration makes up for it (`RootBridgeEnumerator.EnumerateTwice`).

## Model

| member | source | states |
|---|---|---|
| PciTopology.PathDelivers | ByoModulePkg/PciBusDxe/PciLib.c:1172-1257 | The type 1 walk the bridges make in hardware, given any registers that nest along a path, ends on the bus at the end of that path |
| PciTopology.PathClaims | ByoModulePkg/PciBusDxe/PciLib.c:1190-1226 | On a nested path, the bridges of the whole topology that claim an access to its last bus are exactly the bridges on the path |
| PciTopology.RouteIsSole | ByoModulePkg/PciBusDxe/PciLib.c:1172-1257 | Accesses to the bus at the end of a nested path are delivered there, and claimed by no bridge off the path |
| PciTopology.PathExtend | ByoModulePkg/PciBusDxe/PciLib.c:1178-1207 | A bridge opened on a bus, with an interval inside its parent's and apart from all its siblings, extends the nested path |
| PciTopology.WordMask | ByoModulePkg/PciBusDxe/PciEnumeratorSupport.c:2687-2697 | Masking configuration dword 18h with FF000000h clears bytes 18h to 1Ah and keeps byte 1Bh |
| ConfigSpace.ConfigFabric.ReadHeader | ByoModulePkg/PciBusDxe/PciEnumeratorSupport.c:38-81 | A header read on a bus at the end of a nested path returns the header of the physical function meant, and is recorded with the registers that routed it |
| BusNumberRanges.PciAllocateBusNumber | ByoModulePkg/PciBusDxe/PciLib.c:924-966 | The walk over gapped ranges answers with the element `count` places after the start in the concatenation of the ranges if there is one, out-of-resources if not; it claims success wrongly exactly when the 8-bit running number loses a bit, and it does so exactly when the list is short and ends so high that the shortfall passes 255, and then it answers with what 8 bits keep of the running number; a start outside the ranges is out-of-resources |
| BusNumberRanges.AdvanceFrom | ByoModulePkg/PciBusDxe/PciLib.c:950-960 | The same for the inner loop, with each of the two UINT8 casts written out |
| BusNumberRanges.RunningDecides | ByoModulePkg/PciBusDxe/PciLib.c:952-958 | Whatever range the walk stands at, comparing the running number with that range's maximum tells exactly whether the wanted element of the flat list lies in it |
| BusNumberRanges.LostAtTheTop | ByoModulePkg/PciBusDxe/PciLib.c:951-961 | A concrete list (all 256 buses) and request (one bus after 255) for which the cast loses a bit |
| BusNumberRanges.WrapsToZero | ByoModulePkg/PciBusDxe/PciLib.c:951-961 | Asking for the one number after a list that ends at 255 is answered with bus 0 |
| BusNumberRanges.FlatAscends | ByoModulePkg/PciBusDxe/PciLib.c:944-963 | The concatenation of ascending disjoint ranges is strictly ascending and ends with the last number of the last range |
| BusPlan.OrdNested | ByoModulePkg/PciBusDxe/PciLib.c:1172-1257 | In the closed-form plan of a depth-first walk a bridge below another is numbered within its interval |
| BusPlan.OrdDisjoint | ByoModulePkg/PciBusDxe/PciLib.c:1172-1257 | Bridges on different branches get disjoint stretches of the flat list |
| BusPlan.TotalDemand | ByoModulePkg/PciBusDxe/PciLib.c:1019-1291 | Buses consumed by a scan, plus those the 8-bit casts of reservations and padding drop, are what is asked for: one for each bridge, the uncast padding, and for every device slot the largest reservation of its SR-IOV endpoints; they are just these if and only if every increment of a slot's reservation and every padding request is below 256, and otherwise at least 256 short |
| BusPlan.WideReservation | ByoModulePkg/PciBusDxe/PciLib.c:1265-1271 | An input for which they are short: one endpoint that reserves 256 buses is given none |
| BusPlan.WidePadding | ByoModulePkg/PciBusDxe/PciLib.c:1240 | Another: a bridge with 256 buses of padding to keep below it keeps none |
| BusPaths.AskedIsSum | ByoModulePkg/PciBusDxe/PciLib.c:1019-1291 | Over the set of all paths to bridges: what is asked for is one bus for each bridge, the sum of the ranges of just the bridges padded below, and the reservations of the slots of the root bus and of the bus below each bridge |
| BusPaths.RootPaddingIsSum | ByoModulePkg/PciBusDxe/PciLib.c:1231-1271 | The padding at the root bridge is the sum of the ranges of just the bridges, wherever they are, whose padding is to be set aside there; an endpoint adds nothing, and without such a bridge it is zero |
| BusPaths.LargestIsLeast | ByoModulePkg/PciBusDxe/PciLib.c:1265-1271 | The reservation of a slot is enough for every endpoint in it and attained by one, or zero |
| BusPaths.AssignCounts | ByoModulePkg/PciBusDxe/PciEnumerator.c:364-490 | The walk without padding takes one bus for each bridge met so far |
| BusPaths.OrdLocal | ByoModulePkg/PciBusDxe/PciLib.c:1172-1257 | The bus below a bridge comes right after the buses taken by what precedes it on its own bus, and the bridge takes in just the buses below it and the padding it keeps |
| BusPaths.FaultsExactly | ByoModulePkg/PciBusDxe/PciLib.c:1106-1246 | A scan reports a padding error if and only if some bridge has one and there are numbers enough to come to that bridge |
| BusPaths.FaultyIsThere | ByoModulePkg/PciBusDxe/PciLib.c:1106-1246 | A topology is faulty if and only if some bridge in it cannot report its padding |
| BusNumbering.BridgeNumbers | ByoModulePkg/PciBusDxe/PciLib.c:1172-1257 | After a complete numbering primary < secondary <= subordinate for every bridge, all taken from the available numbers, and the primary bus of a bridge on the root bus is the root bus |
| BusNumbering.IntervalsNest | ByoModulePkg/PciBusDxe/PciLib.c:1172-1257 | A bridge below another has its interval strictly inside; its primary bus is its parent's secondary bus |
| BusNumbering.IntervalsDisjoint | ByoModulePkg/PciBusDxe/PciLib.c:1172-1257 | Bridges of which neither is above the other have disjoint intervals |
| BusNumbering.SecondariesDistinct | ByoModulePkg/PciBusDxe/PciLib.c:1172-1176 | No two bridges share a secondary bus number |
| BusNumbering.NumberedIsNested | ByoModulePkg/PciBusDxe/PciEnumeratorSupport.c:2640-2708 | A complete numbering meets what the reset starts from |
| BusScan.PciScanBus | ByoModulePkg/PciBusDxe/PciLib.c:983-1294 | The scan loops, with every register write going through the bridges being written: the outcome is the one the plan's first obstacle gives, success if there is none; on success every bridge holds the planned numbers and the returned bus and padding are the planned ones; stopped or not, every access added to the trace was routed to the bus meant and nowhere else; only bridges below the scanned bus were written, latency bytes never |
| BusScan.GoesExactly | ByoModulePkg/PciBusDxe/PciLib.c:1019-1291 | A plan meets no obstacle if and only if no bridge reports a padding error and the demand fits the list; a request that fails asks for a number past the list and within the demand |
| BusScan.ScanBridge | ByoModulePkg/PciBusDxe/PciLib.c:1106-1258 | One bridge of the scan: number, open to 255, scan below, pad, close; if it stops, for the plan's first obstacle |
| BusScan.ScanBelow | ByoModulePkg/PciBusDxe/PciLib.c:1172-1229 | The part up to the return from below; a bridge whose own request loses a bit is handed bus 0, not above its primary bus, and if that is the root bus the next scan speaks to the root bus again whatever the registers hold |
| BusScan.ScanEndpoint | ByoModulePkg/PciBusDxe/PciLib.c:1259-1284 | One endpoint of the scan: reserve what exceeds the slot's reservation so far, with the outcome decided by the request's place in the flat list |
| BusScan.Reserve | ByoModulePkg/PciBusDxe/PciLib.c:1172-1176 | A request in terms of the flat list: done if the ordinal is in the list, otherwise lost to an 8-bit cast exactly if the running number overruns, otherwise refused |
| BusWalk.SiblingsApart | ByoModulePkg/PciBusDxe/PciLib.c:1172-1207 | While a bridge is open to 255 its finished siblings lie below it and its unvisited siblings are cleared |
| BusWalk.ChildReady | ByoModulePkg/PciBusDxe/PciLib.c:1172-1226 | Opening a bridge leaves a state in which the bus below it can be reached and scanned |
| BusWalk.ChildDone | ByoModulePkg/PciBusDxe/PciLib.c:1247-1258 | Closing it leaves a state in which the scan of its own bus can go on |
| BusAssign.PciAssignBusNumber | ByoModulePkg/PciBusDxe/PciEnumerator.c:364-490 | The walk without padding numbers every bridge by the plan, or stops for want of numbers: losing a bit exactly if the last number is 255, otherwise reporting exactly whether the bridge left over is on this bus or further down; every access it makes is routed |
| BusAssign.WalksAgree | ByoModulePkg/PciBusDxe/PciEnumerator.c:364-490 | Without padding and reservations the two walks need the same number of buses and write the same three numbers into every bridge |
| BusReset.ResetAllPpbBusNumber | ByoModulePkg/PciBusDxe/PciEnumeratorSupport.c:2640-2708 | Terminates because secondary numbers grow; clears primary, secondary and subordinate of every bridge below the bus it starts from; byte 1Bh is kept; every access is routed although the routing registers are being cleared; from a number no bus answers to, no device is found and nothing is written |
| BusReset.ChildReset | ByoModulePkg/PciBusDxe/PciEnumeratorSupport.c:2671-2685 | A bridge that still holds its interval can be descended through |
| BusReset.BridgeReset | ByoModulePkg/PciBusDxe/PciEnumeratorSupport.c:2683-2697 | A bridge cleared after everything below it leaves the rest of the bus resettable |
| BusReach.NobodyAnswers | ByoModulePkg/PciBusDxe/PciEnumeratorSupport.c:2656-2665 | An access to a number that is neither the root bus's nor any bridge's secondary reaches no device |
| BusReach.NumberReaches | ByoModulePkg/PciBusDxe/PciEnumeratorSupport.c:2683-2685 | In a nested topology a bridge's secondary number leads to the bus below it |
| BusReach.StaysNested | ByoModulePkg/PciBusDxe/PciEnumeratorSupport.c:2640-2708 | A reset of what is below one bridge leaves the whole topology nested |
| BusReach.ResetBetween | ByoModulePkg/PciBusDxe/PciLib.c:1489-1521 | The reset between the enumerations, from whatever number the host bridge lists first: exactly the bridges below the bus with that number are cleared, all of them if and only if that is the root bus or there is no bridge; if no bus has the number nobody answers and nothing is written |
| RootBridgeEnumerator.SortRanges | ByoModulePkg/PciBusDxe/PciEnumerator.c:205-228 | On any list, the in-place selection sort yields ascending ranges, a permutation of the same (AddrRangeMin, AddrLen) pairs, and leaves every other field where it was; disjoint ranges stay disjoint |
| RootBridgeEnumerator.TrimmedDenotes | ByoModulePkg/PciBusDxe/PciEnumerator.c:276-292 | The trimmed list denotes the available numbers from the first up to the last one used, in order |
| RootBridgeEnumerator.ReportBusNumbers | ByoModulePkg/PciBusDxe/PciEnumerator.c:276-302 | What is handed to SetBusNumbers denotes exactly the available numbers at most the last one used, and afterwards the caller's list is back field for field |
| RootBridgeEnumerator.PciRootBridgeEnumerator | ByoModulePkg/PciBusDxe/PciEnumerator.c:154-305 | Sort, reset, scan, set padding aside, report and restore: the way it ends is determined by the ranges, the topology and the host bridge's answer, and for each way what the registers and the reported list are is given, over the flat list of the sorted ranges; what is reported are the buses of the scan and the 8-bit sum of the ranges of all bridges padded at the root bridge, and with no such bridge the buses of the scan alone |
| RootBridgeEnumerator.RootGoesExactly | ByoModulePkg/PciBusDxe/PciEnumerator.c:250-269 | It goes through if and only if no bridge is faulty and the buses it uses, with the padding at the root bridge as its 8-bit sum has it, are there |
| RootBridgeEnumerator.LastUsedIs | ByoModulePkg/PciBusDxe/PciEnumerator.c:250-269 | The last bus used is that of the scan plus the 8-bit sum, over the paths of the bridges padded at the root bridge, of what they ask for |
| RootBridgeEnumerator.GoesAsAsked | ByoModulePkg/PciBusDxe/PciEnumerator.c:250-269 | Whatever has room for all that is asked for, uncast, goes through; what goes through has got all of it if and only if the increments of reservations, the padding below each bridge and the sum of the padding at the root bridge are all below 256 |
| RootBridgeEnumerator.WideRootPadding | ByoModulePkg/PciBusDxe/PciLib.c:1235-1238 | The input for which it has not: a bridge that asks for 256 buses of padding at the root bridge, and a list of two buses |
| RootBridgeEnumerator.SameRangesSameList | ByoModulePkg/PciBusDxe/PciEnumerator.c:205-228 | However the host bridge orders its ranges, the sorted list denotes the same buses |
| RootBridgeEnumerator.EnumerateTwice | ByoModulePkg/PciBusDxe/PciLib.c:1450-1565 | Enumerate, reset, enumerate again, with the ranges listed in any order the second time: the first leaves a complete numbering, the reset clears every bridge if and only if the lowest range is listed first or there is no bridge, and an accepted second enumeration brings every register of every bridge back in any case |
| DeviceTree.DevicePool.RejectPciDevice | ByoModulePkg/PciBusDxe/PciEnumerator.c:745-805 | Takes away a bridge's padding, or unlinks a device that is no bridge from its parent's list, in order, with every other list and the padding as they were; succeeds exactly when there is something to take |
| DeviceTree.RemovalLowersWeight | ByoModulePkg/PciBusDxe/PciEnumerator.c:745-805 | Each removal of a rejectable device or of padding lowers (listed rejectable devices + bridges with padding) by one |
| ResourceRejection.VictimIsRejectable | ByoModulePkg/PciBusDxe/PciEnumerator.c:817-854 | What the search counts as a victim is padding, or exactly the devices that are no bridge, no VGA device and not on bus 0 |
| ResourceRejection.GetMaxResourceConsumerDevice | ByoModulePkg/PciBusDxe/PciEnumerator.c:902-936 | Returns the heaviest victim the search meets, the last one among equals, and nothing exactly if it meets none |
| ResourceRejection.HeaviestOfBoth | ByoModulePkg/PciBusDxe/PciEnumerator.c:866-890 | The pairwise choice combines the heaviest of two lists into the heaviest of both |
| ResourceRejection.ChoiceIsLargest | ByoModulePkg/PciBusDxe/PciEnumerator.c:816-936 | On any well-shaped resource tree: no choice if and only if nothing in it can be given up, and otherwise a victim at least as long as every other |
| ResourceRejection.PciHostBridgeAdjustAllocation | ByoModulePkg/PciBusDxe/PciEnumerator.c:957-1073 | Gives up exactly the removable choices of the unsatisfied types, each once; fails at a type reported not satisfied at all, or if nothing was given up; each rejection lowers the weight by one; nothing but padding and rejectable devices is taken |
| OptionRoms.GetMaxOptionRomSize | ByoModulePkg/PciBusDxe/PciEnumerator.c:558-609 | The result bounds every ROM below the bridge and is one of them (or zero) |
| OptionRoms.ProcessOptionRom | ByoModulePkg/PciBusDxe/PciEnumerator.c:317-350 | Loads exactly the ROMs below the bridge that fit the window, each once |
| OptionRoms.RomsAligned | ByoModulePkg/PciBusDxe/PciLib.c:530-538 | A base that is a multiple of the adjusted alignment is naturally aligned for every power-of-two ROM size up to the largest |
| ResourceDescriptors.ConstructAcpiResourceRequestor | ByoModulePkg/PciBusDxe/PciEnumerator.c:1092-1308 | In the buffer there is exactly one descriptor of each requested kind, with the request's length as length and its alignment as maximum, and none of a kind that is not requested; type, width (32 or 64) and flag (1, 0 or 6) of each kind are given as values; the descriptors stand in the fixed order before the end tag, with one empty descriptor if nothing is requested |
| ResourceDescriptors.GetResourceBase | ByoModulePkg/PciBusDxe/PciEnumerator.c:1322-1400 | The base of a kind is that of the last satisfied descriptor about it, all ones without one |
| ResourceDescriptors.GetResourceAllocationStatus | ByoModulePkg/PciBusDxe/PciEnumerator.c:668-733 | The status of a kind is that of the last descriptor about it, unchanged without one |
| ResourceDescriptors.LastBaseIs | ByoModulePkg/PciBusDxe/PciEnumerator.c:1322-1400 | That last descriptor is the satisfied one about the kind with none such behind it; all ones if there is none |
| ResourceDescriptors.LastStatusIs | ByoModulePkg/PciBusDxe/PciEnumerator.c:668-733 | The same for the status, whatever it says |
| ResourceDescriptors.ReadersDiffer | ByoModulePkg/PciBusDxe/PciEnumerator.c:668-1400 | A descriptor is about at most one kind for each reader, by type and width; the two readers take it for different kinds if and only if it is for memory and has a prefetch bit set in a flag other than 6 |
| ResourceDescriptors.ReadIfKnown | ByoModulePkg/PciBusDxe/PciEnumerator.c:668-1400 | Either reader takes a descriptor to be about some kind if and only if it is for I/O, or for memory of 32 or 64 bits |
| ResourceDescriptors.RoundTrip | ByoModulePkg/PciBusDxe/PciEnumerator.c:1092-1400 | For every subset of the five kinds, echoing the constructed descriptors with bases and statuses and reading them back gives each kind its own base and status and no other's |
| ResourceDescriptors.KindsAreDistinct | ByoModulePkg/PciBusDxe/PciEnumerator.c:1092-1400 | A constructed descriptor is read as being about its own kind and no other, although the two readers test the flag differently |
| HostBridgeAllocator.Allocator.Settle | ByoModulePkg/PciBusDxe/PciLib.c:418-740 | The `while (TRUE)` loop terminates for any answers of the host bridge, which decide how: success if and only if all is submitted and the allocation accepted in the last round, and refused in every round before; out of resources if and only if, without hot-plug, all is submitted and the first allocation refused; an error if and only if a submission or a proposal of the last round is refused; given up only with hot-plug after a refused allocation whose adjustment came to a type reported as not there at all, or took nothing away. Each adjustment starts from what the one before left; the retries are at most the initial weight; only padding and rejectable devices are taken; the phases announced are one refused allocation freed for each retry, and the last allocation |
| HostBridgeAllocator.Allocator.GatherStatus | ByoModulePkg/PciBusDxe/PciLib.c:632-690 | The statuses of the five types, in their order, over the proposals of all root bridges, and gathering fails exactly if a root bridge refuses to answer |
| HostBridgeAllocator.Allocator.StatusIsLast | ByoModulePkg/PciBusDxe/PciLib.c:632-690 | The status of a type is what the last root bridge with a descriptor of it says in the last such descriptor; a type nobody mentions is satisfied |
| HostBridgeAllocator.Allocator.Retry | ByoModulePkg/PciBusDxe/PciLib.c:632-738 | One failed allocation: exactly the choices for the gathered statuses are given up; the weight is strictly lower if another try follows |
| HostBridgeAllocator.Allocator.SubmitOne | ByoModulePkg/PciBusDxe/PciLib.c:505-573 | The root bridge's RomSize equals the submitted Mem32 length: on the first pass the larger of the request's and of the largest ROM below, with the alignment adjusted for just that ROM; in a retry the request's own length and alignment; and just that is what is submitted |
| HostBridgeAllocator.Allocator.LoadOptionRoms | ByoModulePkg/PciBusDxe/PciLib.c:760-806 | Exactly the ROMs below each root bridge that fit the window submitted for it are loaded, each once, at the Mem32 base of the host bridge's answer |
| HostBridgeAllocator.Allocator.NoRomSkipped | ByoModulePkg/PciBusDxe/PciLib.c:507-540 | Windows as submitted on the first pass skip no ROM |
| HostBridgeAllocator.Allocator.RomWellPlaced | ByoModulePkg/PciBusDxe/PciLib.c:507-540 | With powers of two and a base that honours the submitted alignment, every ROM loaded on the first pass is naturally aligned and ends within its window |
| HostBridgeAllocator.Allocator.PciHostBridgeResourceAllocator | ByoModulePkg/PciBusDxe/PciLib.c:377-908 | All of the above over a whole call: the way it ends, as for the retry loop and then by whether the host bridge gives its final answer for every root bridge; the phases announced on success; if the first allocation succeeds nothing is taken away, no ROM is skipped, and with powers of two and honoured alignments every loaded ROM is well placed; later windows are as the resource map has them |
| HostBridgeAllocator.Allocator.PciHostBridgeEnumerator | ByoModulePkg/PciBusDxe/PciLib.c:1426-1641 | Succeeds if and only if every scan, the hot-plug controllers if there are any, and every collection does; bus allocation is announced once, or twice exactly with hot-plug support and controllers, and then resource allocation |
| HostBridgeAllocator.Allocator.PciEnumerator | ByoModulePkg/PciBusDxe/PciEnumerator.c:85-108 | The whole trace keeps to the protocol whatever happens; on success its phases are exactly begin, bus allocation once or twice, resource allocation, one refused and freed allocation for each retry, the accepted one, setting resources and the two ends; the status is determined by the steps and answers |
| HostBridgeAllocator.AllocationFollowsSubmissions | ByoModulePkg/PciBusDxe/PciLib.c:431-603 | In every trace that keeps to the protocol each AllocateResources comes right after exactly one submission of every root bridge, in order |
| HostBridgeAllocator.PrefixesReach | ByoModulePkg/PciBusDxe/PciEnumerator.c:85-108 | Every prefix of such a trace keeps to the protocol |
| BarSizing.FillUpperBits | ByoModulePkg/PciBusDxe/PciEnumeratorSupport.c:1858-1863 | The shift loop sets exactly the bits above the highest set bit of the upper half |
| BarSizing.PciDevice.BarExisted | ByoModulePkg/PciBusDxe/PciEnumeratorSupport.c:799-849 | Probing a register returns its writable bits and fixed ones and leaves configuration space as it was, whatever bits are writable |
| BarSizing.PciDevice.PciParseBar | ByoModulePkg/PciBusDxe/PciEnumeratorSupport.c:1711-1914 | One BAR, all branches: recorded from the probes of its dword and the next; configuration space unchanged; the next dword is probed exactly if the register is a 64-bit one |
| BarSizing.PciDevice.ParseBars | ByoModulePkg/PciBusDxe/PciEnumeratorSupport.c:423-425 | The loop over a device's BARs probes the dwords from 10h on once each, in order, up to 24h (28h if a 64-bit register starts at 24h), and leaves configuration space unchanged |
| BarShapes.BarExact | ByoModulePkg/PciBusDxe/PciEnumeratorSupport.c:1711-1914 | Every register of a power-of-two size (I/O of 16 and 32 bits, 32-bit memory, 64-bit memory with any number of address bits above 32) is recorded with that size, with alignment size - 1 or, for memory, max(size, 4096) - 1, its base and its type |
| BarShapes.WideExactIff | ByoModulePkg/PciBusDxe/PciEnumeratorSupport.c:1806-1880 | A 64-bit register with any number of address bits is given the right length if and only if an upper bit sticks or just one address bit does |
| BarShapes.HalfExact | ByoModulePkg/PciBusDxe/PciEnumeratorSupport.c:1813-1853 | A 64-bit register without upper bits in full: its own address and type, its address bits for a length, one less for an alignment, and no BAR if it has none |
| BarShapes.ReservedExact | ByoModulePkg/PciBusDxe/PciEnumeratorSupport.c:1886-1897 | A memory register of a reserved type gets its address, its size and its alignment, but no type |
| BarShapes.HalfWideMissized | ByoModulePkg/PciBusDxe/PciEnumeratorSupport.c:1842-1853 | A 1 MB 64-bit register whose upper half is wired to zero is recorded with a length of 4095 MB |
| BarShapes.DeviceSized | ByoModulePkg/PciBusDxe/PciEnumeratorSupport.c:423-425 | On a device implementing any row of registers over the six dwords, BAR i is register i at its own offset, exactly if it can be sized; later BARs stay as they were |
| BarAlignment.SetNewAlign | ByoModulePkg/PciBusDxe/PciEnumeratorSupport.c:1436-1499 | One more than the new mask is the least multiple of m*16^s at or above one more than the old (m = 2, 4, 8 by code, s the trailing zero hexadecimal digits), within 64 bits; other codes replace or keep the mask |
| BarAlignment.RoundedExactly | ByoModulePkg/PciBusDxe/PciEnumeratorSupport.c:1435-1499 | The codes FFFFFFFFFFFFFFFEh, FDh and FCh round to multiples of 2, 4 and 8 times the hexadecimal place of the last nonzero digit |
| BarAlignment.LoopEnds | ByoModulePkg/PciBusDxe/PciEnumeratorSupport.c:1462-1471 | The loop over zero digits ends if and only if the mask is not all ones |
| BarAlignment.PowerStaysPower | ByoModulePkg/PciBusDxe/PciEnumeratorSupport.c:1475-1494 | A power-of-two alignment becomes the larger of itself and the rounding unit, a power of two |
| AttributeOffers.RegisterBits | ByoModulePkg/PciBusDxe/PciEnumeratorSupport.c:946-978 | For each attribute, the register bit it stands for, both ways; no other attribute comes from the registers |
| AttributeOffers.OfferedBits | ByoModulePkg/PciBusDxe/PciEnumeratorSupport.c:946-1021 | For each attribute, when a device offers it: motherboard and 10-bit or 16-bit ISA of an LPC bridge, IDE of bridges and IDE controllers, VGA and palette by kind, register and alias setting |
| AttributeOffers.SupportedExactly | ByoModulePkg/PciBusDxe/PciEnumeratorSupport.c:1023-1026 | What a device supports is the largest set of attributes that it offers and that its parent supports or are I/O, memory and bus mastering |
| AttributeOffers.InitialBits | ByoModulePkg/PciBusDxe/PciEnumeratorSupport.c:1028-1039 | What it holds to begin with is what its registers held, with the bridge-control register for bridges only, and the embedded-ROM attribute exactly without such a ROM |
| AttributeOffers.StartsInactive | ByoModulePkg/PciBusDxe/PciEnumeratorSupport.c:1023-1038 | No device that is not a bridge holds a VGA decoding attribute to begin with |
| AttributeOffers.BridgeAgrees | ByoModulePkg/PciBusDxe/PciEnumeratorSupport.c:995-1008 | A bridge supports VGA decoding of 10 or 16 address bits, never both |
| AttributeOffers.SnoopingVgaConflicts | ByoModulePkg/PciBusDxe/PciEnumeratorSupport.c:1009-1026 | A palette-snooping VGA device directly below a root bridge can support both |
| DeviceAttributes.AttributePool.PciSetDeviceAttribute | ByoModulePkg/PciBusDxe/PciEnumeratorSupport.c:938-1040 | A device's supports are what it offers, cut down to its parent's and I/O, memory and bus mastering; its attributes are what its registers held |
| DeviceAttributes.AttributePool.DetermineDeviceAttribute | ByoModulePkg/PciBusDxe/PciEnumeratorSupport.c:1126-1257 | The recursion settles every device at or below the one it is called for, against its parent's final supports, and touches nothing else; only an unreadable root bridge is an error |
| DeviceAttributes.AttributePool.DetermineRoot | ByoModulePkg/PciBusDxe/PciEnumeratorSupport.c:1126-1257 | From any reachable state, determination keeps: supports nest, bridges do not conflict, one active VGA device per segment |
| DeviceAttributes.AttributePool.ActiveVGADeviceOnTheRootBridge | ByoModulePkg/PciBusDxe/PciDeviceSupport.c:1092-1126 | Returns an active VGA device below the bridge, and nothing only if there is none anywhere below |
| DeviceAttributes.AttributePool.ActiveVGADeviceOnTheSameSegment | ByoModulePkg/PciBusDxe/PciDeviceSupport.c:1055-1081 | The same over all root bridges of the segment |
| DeviceAttributes.AttributePool.ModifyRootBridgeAttributes | ByoModulePkg/PciBusDxe/PciIo.c:1284-1348 | The root bridge is asked for, or to give up, the request without the embedded and DAC bits and then holds just that beside, or without, what it held; or it refuses and nothing changes |
| DeviceAttributes.RootTakesExactly | ByoModulePkg/PciBusDxe/PciIo.c:1298-1340 | It takes the request if and only if it can be read and either can be written or already holds all that is to be enabled, or none of what is to be disabled |
| DeviceAttributes.AttributePool.CheckVga | ByoModulePkg/PciBusDxe/PciIo.c:1623-1672 | A device may decode VGA resources exactly if no other device of its segment does |
| DeviceAttributes.AttributePool.AcceptsUnless | ByoModulePkg/PciBusDxe/PciIo.c:1571-1672 | The reasons to refuse a request, all of them: VGA attributes of 10 and of 16 bits together, one not supported, and on enabling at an ordinary device a second VGA decoder in the segment or a refused palette snoop |
| DeviceAttributes.AttributePool.ChangeAttributes | ByoModulePkg/PciBusDxe/PciIo.c:1545-1749 | Enable and Disable: with all of I/O, memory and bus mastering in it a request asks for what of it is supported, and is never refused as unsupported; otherwise any unsupported attribute refuses it unchanged. At a bridge, or without VGA and palette attributes, Enable of what passes that succeeds exactly as the root bridge answers and the device then holds it beside what it held. In general: refused with nothing changed if the device's own checks fail; otherwise no bridge above refuses, success is the root bridge's answer, and the new attributes of every device of the platform are given; one active VGA device per segment stays |
| DeviceAttributes.AttributePool.EnableAndPassOn | ByoModulePkg/PciBusDxe/PciIo.c:1704-1729 | The upward half of Enable, including what stays set when the root bridge refuses |
| DeviceAttributes.AttributePool.SetAttributes | ByoModulePkg/PciBusDxe/PciIo.c:1519-1540 | Set succeeds with exactly the requested of the supported attributes held, or is refused unchanged, or stops half done exactly when what is left to disable conflicts or the root bridge refused; below a bridge it never stops for a conflict |
| AttributeTree.EnableReachesAll | ByoModulePkg/PciBusDxe/PciIo.c:1704-1729 | After a successful Enable the device holds what it held and the request, every bridge above what it held and the request minus exactly I/O, memory and bus mastering, the root bridge that minus exactly the embedded and DAC bits as well, and every other device what it held |
| AttributeTree.ParentAccepts | ByoModulePkg/PciBusDxe/PciIo.c:1704-1729 | What a device accepted and passes on is accepted by the bridge above it |
| AttributeTree.NoConflictBelowBridge | ByoModulePkg/PciBusDxe/PciEnumeratorSupport.c:995-1026 | Nothing below a bridge supports conflicting VGA attributes |
| AttributeTree.SnoopedActive | ByoModulePkg/PciBusDxe/PciIo.c:1429-1456 | The snoop check's own change to the active VGA device keeps one active device per segment |
| AttributeTree.SnoopedBits | ByoModulePkg/PciBusDxe/PciIo.c:1446-1452 | That change takes exactly the primary IDE attribute away and leaves the palette attribute as it was |
| MonotonicCounter.BytesRoundTrip | ByoModulePkg/MonotonicCounterRuntimeCmosDxe/MonotonicCounter.c:70-110 | The four CMOS bytes read back as the 32-bit value written |
| MonotonicCounter.SafeRunIncreases | ByoModulePkg/MonotonicCounterRuntimeCmosDxe/MonotonicCounter.c:136-171 | Over any run of calls, handler runs and reboots in which the high half has room and reboots come while what was returned is covered, the counts returned strictly increase |
| MonotonicCounter.OneBootIsSafe | ByoModulePkg/MonotonicCounterRuntimeCmosDxe/MonotonicCounter.c:136-257 | Within one boot that holds however late the handler runs |
| MonotonicCounter.PromptRunIncreases | ByoModulePkg/MonotonicCounterRuntimeCmosDxe/MonotonicCounter.c:136-309 | Across boots it holds, from any CMOS contents, whenever the handler runs within 2^31 calls of its signal and the high half lasts |
| MonotonicCounter.TrackedStays | ByoModulePkg/MonotonicCounterRuntimeCmosDxe/MonotonicCounter.c:162-168 | The signal comes in time: without it pending, fewer than 2^31 counts were returned above the stored high half |
| MonotonicCounter.SignalsExactly | ByoModulePkg/MonotonicCounterRuntimeCmosDxe/MonotonicCounter.c:162-168 | A call signals the event if and only if the count it hands out is 2^31 - 1 modulo 2^31 |
| MonotonicCounter.FewCallsOfABoot | ByoModulePkg/MonotonicCounterRuntimeCmosDxe/MonotonicCounter.c:136-309 | A boot that makes fewer than 2^31 calls, with the event dispatched however often in between, hands out the consecutive counts from the start of its high half, signals nothing and leaves what is stored alone |
| MonotonicCounter.RaisedIsNext | ByoModulePkg/MonotonicCounterRuntimeCmosDxe/MonotonicCounter.c:209-257 | The next high half starts at the first multiple of 2^32 past the counter, or at zero if there is none, and is what is stored; the handler does just that if signalled, and nothing otherwise |
| MonotonicCounter.StepExact | ByoModulePkg/MonotonicCounterRuntimeCmosDxe/MonotonicCounter.c:136-309 | In any state a run leads to, a step moves the counter past what it returns, and never back, if and only if the high half has room for it and, for a reboot, the stored high half covers what was returned |
| MonotonicCounter.SafeExactly | ByoModulePkg/MonotonicCounterRuntimeCmosDxe/MonotonicCounter.c:136-309 | The runs in which no step takes the counter back are exactly the safe ones |
| MonotonicCounter.RebootExact | ByoModulePkg/MonotonicCounterRuntimeCmosDxe/MonotonicCounter.c:294-309 | The next boot starts at or past the counter if and only if the high half is not used up and at most 2^32 counts were returned above it |
| MonotonicCounter.LateHandlerRepeats | ByoModulePkg/MonotonicCounterRuntimeCmosDxe/MonotonicCounter.c:136-309 | One call too many before a reboot and the next boot returns a count again |
| MonotonicCounter.UsedUpGoesDown | ByoModulePkg/MonotonicCounterRuntimeCmosDxe/MonotonicCounter.c:294-309 | The run in which a count goes down: the high half reaches FFFFFFFFh, and the boot after that returns 1 in its place |
| MonotonicCounter.Driver.GetNextMonotonicCount | ByoModulePkg/MonotonicCounterRuntimeCmosDxe/MonotonicCounter.c:136-171 | The call is the state machine's step, not available at runtime: it hands out the count, counts on by one and signals the event exactly after the last count of a half of the low half |
| MonotonicCounter.Driver.GetNextHighMonotonicCount | ByoModulePkg/MonotonicCounterRuntimeCmosDxe/MonotonicCounter.c:209-238 | The call moves to the next high half and stores it, leaving other CMOS bytes alone |
| MonotonicCounter.Driver.EfiMtcEventHandler | ByoModulePkg/MonotonicCounterRuntimeCmosDxe/MonotonicCounter.c:249-257 | The handler is the state machine's step |
| MonotonicCounter.Driver.Initialize | ByoModulePkg/MonotonicCounterRuntimeCmosDxe/MonotonicCounter.c:294-309 | Driver initialisation is the state machine's boot, with FFFFFFFFh in CMOS taken as zero |

## Left out

- DeviceAttributes.AttributePool.CheckVga: the decision of the palette-snoop check is an input; its effect on the active VGA device is modelled.
- RootBridgeEnumerator.PciRootBridgeEnumerator: after a `LostBit` the source goes on with a wrong bus number; what it then programs is not followed.
- BusScan.PciScanBus: the scan that goes on below a bridge given a wrong number, or after wrong padding, is not followed; for bus 0 as root bus it would be a scan of the root bus again, by the same plan and so with the same shortage. CardBus bridges, hot-plug controller initialisation and the preprocessing callbacks are not part of the walk; a bridge's padding is an input that may be any answer.
- BusReset.ResetAllPpbBusNumber: starts only from registers that are cleared or nested; through arbitrary registers accesses are not routable.
- BarShapes.BarExact: holds for 64-bit registers with an upper bit that sticks; `WideExactIff` gives the exact condition for all of them.
- BarAlignment.SetNewAlign: excludes the all-ones mask with a rounding code, where the source does not terminate (`LoopEnds`).
- HostBridgeAllocator.Allocator.PciHostBridgeResourceAllocator: the resource maps of each round and the Mem32 request are inputs of any value; aperture calculation and merging of resource trees are not modelled. The status of AllocateResources is an input, since the NotifyPhase wrapper (`PciEnumerator.c:1870`) discards the one it gets.
- ResourceRejection.ChoiceIsLargest: assumes that only bridges' own requests have requests below them; without that `GetMaxResourceConsumerDevice` still returns the heaviest victim it meets.
- DeviceAttributes.AttributePool.ChangeAttributes: the command and bridge-control register writes, the status codes, and the decision of the palette-snoop check (an input, with its effect on the active VGA device) are not modelled; bridges are PCI-to-PCI bridges without a VGA class code.
- DeviceAttributes.AttributePool.SetAttributes: called on a root bridge itself, which no driver has a handle of, is not modelled.
- DeviceAttributes.AttributePool.DetermineDeviceAttribute: fast back-to-back bits are not modelled.
- MonotonicCounter.Driver.GetNextMonotonicCount: NULL output pointers and TPL changes are not modelled.
- UEFI plumbing: protocol open, close and install, device paths, debug output, allocation failure.
- VF BARs, ARI and MR-IOV discovery; the number of buses an SR-IOV function reserves is an input.
- Option ROM parsing and dispatch, driver override lists, PCI I/O read, write and poll wrappers, capability search.
- Lifetime of freed nodes: a removed device leaves its parent's list and stays in the model.
- The order in which ROMs are loaded, and the prefetchable flag of a BAR, which the source only ever clears.
- The BDS, flash update, capsule and legacy interrupt packages, and the build tools.
