/**
  What the BARs a device implements are recorded as: every power-of-two register is sized exactly, on any device that
  lays registers out over the six dwords, except where the upper half of a 64-bit register sticks at zero.
*/
module BarShapes {

  import opened BarSizing

  /** What a device implements at a BAR; `ones` has one bit set for every address bit that exists, from bit 0 up. */
  datatype Shape =
    | Absent
    | IoShape(size: bv32, wide: bool)
    | MemoryShape(size: bv32, prefetchable: bool)
    | WideShape(wideSize: bv64, ones: bv64, prefetchable: bool)

  /** A dword of configuration space: what it holds and which of its bits can change. */
  datatype Register = Register(held: bv32, writable: bv32)

  predicate PowerOfTwo32(x: bv32) {
    x != 0 && x & (x - 1) == 0
  }

  predicate PowerOfTwo64(x: bv64) {
    x != 0 && x & (x - 1) == 0
  }

  function Low(v: bv64): bv32 {
    (v & 0xFFFF_FFFF) as bv32
  }

  function High(v: bv64): bv32 {
    (v >> 32) as bv32
  }

  /** All bits from the size up: those an address aligned to the size can have. */
  function Above32(size: bv32): bv32 {
    !(size - 1)
  }

  function Above(size: bv64): bv64 {
    !(size - 1)
  }

  /** No memory register is smaller. */
  predicate AtLeast16(size: bv32) {
    16 <= size
  }

  predicate LowOnes(v: bv64) {
    v & (v + 1) == 0
  }

  predicate LowOnes32(v: bv32) {
    v & (v + 1) == 0
  }

  predicate TopOnes32(v: bv32) {
    v == 0 || v | (v - 1) == ALL_ONE
  }

  function And(a: bv64, b: bv64): bv64 {
    a & b
  }

  function And32(a: bv32, b: bv32): bv32 {
    a & b
  }

  function Or32(a: bv32, b: bv32): bv32 {
    a | b
  }

  /** The bits that cannot change. */
  function FixedBits(r: Register): bv32 {
    r.held & !r.writable
  }

  function AddressBits(r: Register): bv32 {
    r.held & r.writable
  }

  function MemoryFlags(kind: bv32, prefetchable: bool): bv32 {
    if prefetchable then 8 | kind else kind
  }

  /** The address bits a 64-bit register implements. */
  function Implemented(s: Shape): bv64
    requires s.WideShape?
  {
    And(s.ones, Above(s.wideSize))
  }

  /** The dword (and the one after it) behaves as section 6.2.5.1 asks of a register of this size and type. */
  predicate Implements(s: Shape, low: Register, high: Register) {
    match s
    case Absent => low == Register(0, 0)
    case IoShape(size, wide) =>
      PowerOfTwo32(size) && 4 <= size && (!wide ==> size <= 0x8000) && FixedBits(low) == 1 &&
      low.writable == if wide then Above32(size) else And32(0xFFFF, Above32(size))
    case MemoryShape(size, prefetchable) =>
      PowerOfTwo32(size) && AtLeast16(size) && FixedBits(low) == MemoryFlags(0, prefetchable) &&
      low.writable == Above32(size)
    case WideShape(size, ones, prefetchable) =>
      PowerOfTwo64(size) && 16 <= size && LowOnes(ones) &&
      FixedBits(low) == MemoryFlags(4, prefetchable) && FixedBits(high) == 0 &&
      low.writable == Low(Implemented(s)) && high.writable == High(Implemented(s))
  }

  /** Does the upper half have a bit that sticks? True of everything but 64-bit registers confined to 32 bits. */
  predicate Sizable(s: Shape) {
    s.WideShape? ==> High(Implemented(s)) != 0
  }

  /** One less than the size rounded up to a page. */
  function PageAligned(size: bv64): bv64 {
    LessOne(if size < SIZE_4KB then SIZE_4KB else size)
  }

  /** What the device's register should be recorded as. */
  function Exact(s: Shape, was: Bar, low: Register, high: Register, offset: nat): Bar {
    match s
    case Absent => Bar(0, 0, 0, was.barType, offset)
    case IoShape(size, wide) =>
      Bar(Widened(AddressBits(low)), Widened(size), LessOne(Widened(size)), if wide then Io32 else Io16, offset)
    case MemoryShape(size, prefetchable) =>
      Bar(Widened(AddressBits(low)), Widened(size), PageAligned(Widened(size)),
          if prefetchable then PMem32 else Mem32, offset)
    case WideShape(size, ones, prefetchable) =>
      Bar(Joined(AddressBits(low), AddressBits(high)), size, PageAligned(size),
          if prefetchable then PMem64 else Mem64, offset)
  }

  function Record(was: Bar, low: Register, high: Register, offset: nat): Bar {
    Parsed(was, Probed(low.held, low.writable), Probed(high.held, high.writable), offset)
  }

  // ------------------------------------------------------------- bit facts

  lemma ProbeReads(r: Register)
    ensures Probed(r.held, r.writable).value == Or32(r.writable, FixedBits(r))
  {
  }

  lemma HeldSplits(r: Register)
    ensures r.held == Or32(AddressBits(r), FixedBits(r))
  {
  }

  lemma IoDecodes(size: bv32)
    requires PowerOfTwo32(size) && size >= 4
    ensures Negated(Or32(Above32(size), 1), IO_MASK) == size && IsIo32(Or32(Above32(size), 1))
  {
  }

  lemma Io16Decodes(size: bv32)
    requires PowerOfTwo32(size) && 4 <= size <= 0x8000
    ensures Masked(Negated(Or32(And32(0xFFFF, Above32(size)), 1), IO_MASK), 0xFFFF) == size
    ensures !IsIo32(Or32(And32(0xFFFF, Above32(size)), 1))
  {
  }

  lemma IoFlag(bits: bv32)
    ensures Or32(bits, 1) != 0 && IsIo(Or32(bits, 1))
  {
  }

  lemma MemoryDecodes(size: bv32, prefetchable: bool)
    requires PowerOfTwo32(size) && AtLeast16(size)
    ensures var v := Or32(Above32(size), MemoryFlags(0, prefetchable)); Negated(v, MEMORY_MASK) == size && v != 0
  {
  }

  lemma MemoryAddress(bits: bv32, prefetchable: bool)
    requires Masked(bits, MEMORY_MASK) == bits
    ensures Masked(Or32(bits, MemoryFlags(4, prefetchable)), MEMORY_MASK) == bits
  {
  }

  lemma FlagsSurvive(bits: bv32, kind: bv32, prefetchable: bool)
    requires Masked(bits, MEMORY_MASK) == bits && (kind == 0 || kind == 4)
    ensures var v := Or32(bits, MemoryFlags(kind, prefetchable));
            !IsIo(v) && MemoryKind(v) == kind && IsPrefetchable(v) == prefetchable && (kind == 4 ==> v != 0)
  {
  }

  lemma AboveKeeps(held: bv32, size: bv32)
    requires PowerOfTwo32(size) && AtLeast16(size)
    ensures Masked(And32(held, Above32(size)), MEMORY_MASK) == And32(held, Above32(size))
    ensures Masked(Above32(size), MEMORY_MASK) == Above32(size)
  {
  }

  lemma LowKeeps(held: bv32, size: bv64, ones: bv64)
    requires PowerOfTwo64(size) && 16 <= size
    ensures Masked(Low(And(ones, Above(size))), MEMORY_MASK) == Low(And(ones, Above(size)))
    ensures Masked(And32(held, Low(And(ones, Above(size)))), MEMORY_MASK) == And32(held, Low(And(ones, Above(size))))
  {
  }

  /** An upper half holding bits of a run from zero up fills to all the bits above the size. */
  lemma FillsToTop(ones: bv32, top: bv32)
    requires LowOnes32(ones) && TopOnes32(top) && And32(ones, top) != 0
    ensures Filled(And32(ones, top)) == top
  {
  }

  lemma HighHalf(size: bv64, ones: bv64)
    requires PowerOfTwo64(size) && LowOnes(ones)
    ensures LowOnes32(High(ones)) && TopOnes32(High(Above(size)))
    ensures High(And(ones, Above(size))) == And32(High(ones), High(Above(size)))
  {
  }

  lemma LowHalf(size: bv64, ones: bv64)
    requires LowOnes(ones) && High(And(ones, Above(size))) != 0
    ensures Low(And(ones, Above(size))) == Low(Above(size))
  {
  }

  lemma Halves(v: bv64)
    ensures Joined(Low(v), High(v)) == v
    ensures High(v) == 0 ==> Widened(Low(v)) == v
  {
  }

  lemma NegatedAbove(size: bv64)
    ensures Negated64(Above(size)) == size
  {
  }

  lemma NotZero(size: bv32)
    requires size != 0
    ensures Widened(size) != 0
  {
  }

  lemma OrZero(v: bv32)
    ensures Or32(v, 0) == v
  {
  }

  // ------------------------------------------------------------- one BAR

  lemma IoExact(s: Shape, was: Bar, low: Register, high: Register, offset: nat)
    requires s.IoShape? && Implements(s, low, high)
    ensures Record(was, low, high, offset) == Exact(s, was, low, high, offset)
  {
    hide Probed, Negated, Widened, Masked, Or32, And32, Above32, FixedBits, PowerOfTwo32, IsIo, IsIo32, LessOne;
    ProbeReads(low);
    HeldSplits(low);
    IoFlag(low.writable);
    NotZero(s.size);
    IoHeld(s, low, high);
    if s.wide {
      IoDecodes(s.size);
    } else {
      Io16Decodes(s.size);
    }
  }

  lemma IoHeld(s: Shape, low: Register, high: Register)
    requires s.IoShape? && Implements(s, low, high)
    ensures Probed(low.held, low.writable).original == low.held
    ensures Masked(low.held, IO_MASK) == AddressBits(low)
  {
  }

  lemma MemoryHeld(low: Register, kind: bv32, prefetchable: bool)
    requires Masked(low.writable, MEMORY_MASK) == low.writable && (kind == 0 || kind == 4)
    requires FixedBits(low) == MemoryFlags(kind, prefetchable)
    ensures Masked(low.held, MEMORY_MASK) == AddressBits(low)
  {
  }

  lemma Aligns(length: bv64)
    ensures MemoryAlignment(length) == PageAligned(length)
  {
  }

  lemma MemoryLow(s: Shape, low: Register, high: Register)
    requires s.MemoryShape? && Implements(s, low, high)
    ensures var value := Probed(low.held, low.writable).value;
            value != 0 && !IsIo(value) && MemoryKind(value) == 0 && IsPrefetchable(value) == s.prefetchable &&
            Negated(value, MEMORY_MASK) == s.size
    ensures Masked(low.held, MEMORY_MASK) == AddressBits(low)
  {
    hide Negated, Masked, Or32, And32, Above32, FixedBits, PowerOfTwo32, IsIo, MemoryKind, IsPrefetchable,
         MemoryFlags, AddressBits, Written, AtLeast16;
    ProbeReads(low);
    AboveKeeps(low.held, s.size);
    MemoryHeld(low, 0, s.prefetchable);
    FlagsSurvive(low.writable, 0, s.prefetchable);
    MemoryDecodes(s.size, s.prefetchable);
  }

  lemma MemoryExact(s: Shape, was: Bar, low: Register, high: Register, offset: nat)
    requires s.MemoryShape? && Implements(s, low, high)
    ensures Record(was, low, high, offset) == Exact(s, was, low, high, offset)
  {
    hide Negated, Widened, Masked, Above32, FixedBits, PowerOfTwo32, IsIo, LessOne, MemoryKind, IsPrefetchable,
         MemoryFlags, AddressBits, Probed, MemoryAlignment, PageAligned;
    MemoryLow(s, low, high);
    NonZeroSize(s);
    NotZero(s.size);
    Aligns(Widened(s.size));
    ProbeKeeps(low);
  }

  lemma NonZeroSize(s: Shape)
    requires s.MemoryShape? && PowerOfTwo32(s.size)
    ensures s.size != 0
  {
  }

  /** What is common to all 64-bit registers: the lower half says so and keeps its address bits. */
  lemma WideLow(s: Shape, low: Register, high: Register)
    requires s.WideShape? && Implements(s, low, high)
    ensures var value := Probed(low.held, low.writable).value;
            value != 0 && !IsIo(value) && MemoryKind(value) == 4 && IsPrefetchable(value) == s.prefetchable &&
            Masked(value, MEMORY_MASK) == Low(Implemented(s))
    ensures Masked(low.held, MEMORY_MASK) == AddressBits(low)
    ensures Probed(high.held, high.writable).value == High(Implemented(s)) && high.held == AddressBits(high)
  {
    hide Masked, Or32, And32, Above, FixedBits, PowerOfTwo64, IsIo, MemoryKind, And, High, Low,
         IsPrefetchable, MemoryFlags, AddressBits, Written, LowOnes;
    ProbeReads(low);
    ProbeReads(high);
    OrZero(high.writable);
    HeldSplits(high);
    OrZero(AddressBits(high));
    LowKeeps(low.held, s.wideSize, s.ones);
    MemoryHeld(low, 4, s.prefetchable);
    FlagsSurvive(low.writable, 4, s.prefetchable);
    MemoryAddress(low.writable, s.prefetchable);
  }

  lemma WideExact(s: Shape, was: Bar, low: Register, high: Register, offset: nat)
    requires s.WideShape? && Implements(s, low, high) && Sizable(s)
    ensures Record(was, low, high, offset) == Exact(s, was, low, high, offset)
  {
    hide Masked, Above, PowerOfTwo64, IsIo, MemoryKind, And, And32, High, Low, IsPrefetchable, AddressBits, Probed,
         LowOnes, LowOnes32, TopOnes32, Joined, Negated64, Filled, FixedBits, MemoryFlags, MemoryAlignment, PageAligned;
    Aligns(s.wideSize);
    WideLow(s, low, high);
    HighHalf(s.wideSize, s.ones);
    LowHalf(s.wideSize, s.ones);
    FillsToTop(High(s.ones), High(Above(s.wideSize)));
    Halves(Above(s.wideSize));
    NegatedAbove(s.wideSize);
    PositiveSize(s);
    ProbeKeeps(low);
    ProbeKeeps(high);
  }

  lemma ProbeKeeps(r: Register)
    ensures Probed(r.held, r.writable).original == r.held
  {
  }

  lemma PositiveSize(s: Shape)
    requires s.WideShape? && PowerOfTwo64(s.wideSize)
    ensures s.wideSize != 0
  {
  }

  /** Every BAR that is not a 64-bit one confined to the lower half is recorded exactly. */
  lemma BarExact(s: Shape, was: Bar, low: Register, high: Register, offset: nat)
    requires Implements(s, low, high) && Sizable(s)
    ensures Record(was, low, high, offset) == Exact(s, was, low, high, offset)
  {
    match s
    case Absent => AbsentReads(low, high);
    case IoShape(_, _) => IoExact(s, was, low, high, offset);
    case MemoryShape(_, _) => MemoryExact(s, was, low, high, offset);
    case WideShape(_, _, _) => WideExact(s, was, low, high, offset);
  }

  lemma AbsentReads(low: Register, high: Register)
    requires low == Register(0, 0)
    ensures Probed(low.held, low.writable).value == 0
  {
  }

  /**
    The condition for a 64-bit register, whatever address bits it has: the length is right exactly when an upper bit
    sticks, or when just one bit does. Otherwise the kept lower half, 2^32 less the size, is taken for the length.
  */
  lemma WideExactIff(s: Shape, was: Bar, low: Register, high: Register, offset: nat)
    requires s.WideShape? && Implements(s, low, high)
    ensures Record(was, low, high, offset).length == s.wideSize <==>
            High(Implemented(s)) != 0 || Implemented(s) == s.wideSize
  {
    hide Masked, Above, PowerOfTwo64, IsIo, MemoryKind, And, And32, High, Low, IsPrefetchable, AddressBits, Probed,
         LowOnes, FixedBits, LessOne, MemoryFlags;
    if High(Implemented(s)) != 0 {
      WideExact(s, was, low, high, offset);
    } else {
      WideLow(s, low, high);
      Halves(Implemented(s));
    }
  }

  /**
    A 64-bit register without upper bits is recorded at its own address and with its own type, but with its address
    bits for a length and one less for an alignment; without address bits it is no BAR.
  */
  lemma HalfExact(s: Shape, was: Bar, low: Register, high: Register, offset: nat)
    requires s.WideShape? && Implements(s, low, high) && High(Implemented(s)) == 0
    ensures Record(was, low, high, offset) ==
            Bar(Widened(AddressBits(low)), Implemented(s), LessOne(Implemented(s)),
                if Implemented(s) == 0 then Unknown else if s.prefetchable then PMem64 else Mem64, offset)
  {
    hide Masked, Above, PowerOfTwo64, IsIo, MemoryKind, And, And32, High, Low, IsPrefetchable, AddressBits, Probed,
         LowOnes, FixedBits, LessOne, MemoryFlags, Widened;
    WideLow(s, low, high);
    Halves(Implemented(s));
    ProbeKeeps(low);
  }

  /** A memory register of a reserved type, sized like one of 32 bits. */
  predicate ImplementsReserved(size: bv32, flags: bv32, low: Register) {
    PowerOfTwo32(size) && AtLeast16(size) && flags in {2, 6, 10, 14} && FixedBits(low) == flags &&
    low.writable == Above32(size)
  }

  lemma ReservedFlags(bits: bv32, flags: bv32)
    requires Masked(bits, MEMORY_MASK) == bits && flags in {2, 6, 10, 14}
    ensures var v := Or32(bits, flags);
            !IsIo(v) && v != 0 && MemoryKind(v) != 0 && MemoryKind(v) != 4 && Masked(v, MEMORY_MASK) == bits
  {
  }

  lemma NegatedMasked(v: bv32, size: bv32)
    requires Masked(v, MEMORY_MASK) == Above32(size)
    ensures Negated(v, MEMORY_MASK) == size
  {
  }

  lemma ReservedHeld(low: Register, flags: bv32)
    requires Masked(low.writable, MEMORY_MASK) == low.writable && flags in {2, 6, 10, 14} && FixedBits(low) == flags
    ensures Masked(low.held, MEMORY_MASK) == AddressBits(low)
  {
  }

  lemma SizeIsPositive(size: bv32)
    requires PowerOfTwo32(size)
    ensures size != 0
  {
  }

  /** A register of a reserved type gets its address and its size, but no type. */
  lemma ReservedExact(size: bv32, flags: bv32, was: Bar, low: Register, high: Register, offset: nat)
    requires ImplementsReserved(size, flags, low)
    ensures Record(was, low, high, offset) ==
            Bar(Widened(AddressBits(low)), Widened(size), PageAligned(Widened(size)), Unknown, offset)
  {
    hide Negated, Widened, Masked, Above32, FixedBits, PowerOfTwo32, IsIo, LessOne, MemoryKind, IsPrefetchable,
         AddressBits, Probed, MemoryAlignment, PageAligned, Or32, AtLeast16;
    ProbeReads(low);
    ProbeKeeps(low);
    AboveKeeps(low.held, size);
    ReservedFlags(low.writable, flags);
    ReservedHeld(low, flags);
    NegatedMasked(Or32(low.writable, flags), size);
    SizeIsPositive(size);
    NotZero(size);
    Aligns(Widened(size));
  }

  /** A 64-bit register of 1 MB whose upper half is hard-wired to zero is taken for one of 4095 MB. */
  lemma HalfWideMissized(was: Bar)
    ensures var s := WideShape(0x10_0000, 0xFFFF_FFFF, false);
            Implements(s, Register(4, 0xFFF0_0000), Register(0, 0)) &&
            Record(was, Register(4, 0xFFF0_0000), Register(0, 0), 0x10).length == 0xFFF0_0000
  {
  }

  // ------------------------------------------------------------- all BARs of a device

  function RegisterAt(config: seq<bv32>, writable: seq<bv32>, offset: nat): Register
    requires |config| == |writable| == DWORDS && offset / 4 < DWORDS
  {
    Register(config[offset / 4], writable[offset / 4])
  }

  function Width(s: Shape): nat {
    if s.WideShape? then 8 else 4
  }

  /** The offset of the i-th of a row of registers. */
  function OffsetOf(shapes: seq<Shape>, i: nat, start: nat): nat
    requires i <= |shapes|
  {
    if i == 0 then start else OffsetOf(shapes[1..], i - 1, start + Width(shapes[0]))
  }

  /** The device implements these registers, back to back, over the rest of the six dwords. */
  predicate Laid(shapes: seq<Shape>, config: seq<bv32>, writable: seq<bv32>, start: nat)
    requires |config| == |writable| == DWORDS && start % 4 == 0
  {
    if start > LAST_BAR then shapes == []
    else
      shapes != [] &&
      Implements(shapes[0], RegisterAt(config, writable, start), RegisterAt(config, writable, start + 4)) &&
      Laid(shapes[1..], config, writable, start + Width(shapes[0]))
  }

  /** The parser takes two dwords for one BAR just where the device does. */
  lemma WidthAgrees(s: Shape, low: Register, high: Register)
    requires Implements(s, low, high)
    ensures IsWide(Probed(low.held, low.writable).value) <==> s.WideShape?
  {
    hide Probed, IsIo, MemoryKind, FixedBits, MemoryFlags, And, And32, Above, Above32, PowerOfTwo32, PowerOfTwo64, High,
         Low, LowOnes, AtLeast16, IsPrefetchable, Masked, Negated, AddressBits;
    match s
    case Absent => AbsentReads(low, high);
    case IoShape(_, _) =>
      ProbeReads(low);
      IoFlag(low.writable);
    case MemoryShape(_, _) => MemoryLow(s, low, high);
    case WideShape(_, _, _) => WideLow(s, low, high);
  }

  /** The BAR recorded for register `i` is that register, exactly if it can be sized at all. */
  predicate Matches(shapes: seq<Shape>, config: seq<bv32>, writable: seq<bv32>, start: nat, i: nat, was: seq<Bar>,
                    recorded: seq<Bar>, barIndex: nat)
    requires |config| == |writable| == DWORDS && |was| == |recorded| == BARS && i < |shapes|
  {
    var offset := OffsetOf(shapes, i, start);
    offset <= LAST_BAR && barIndex + i < BARS &&
    var low, high := RegisterAt(config, writable, offset), RegisterAt(config, writable, offset + 4);
    recorded[barIndex + i] == Record(was[barIndex + i], low, high, offset) &&
    (Sizable(shapes[i]) ==> recorded[barIndex + i] == Exact(shapes[i], was[barIndex + i], low, high, offset))
  }

  /** The BARs after the first register of a row is recorded. */
  function FirstRecorded(config: seq<bv32>, writable: seq<bv32>, bars: seq<Bar>, start: nat,
                         barIndex: nat): seq<Bar>
    requires |config| == |writable| == DWORDS && |bars| == BARS
    requires start <= LAST_BAR && start % 4 == 0 && FIRST_BAR + 4 * barIndex <= start
  {
    bars[barIndex := Record(bars[barIndex], RegisterAt(config, writable, start),
                            RegisterAt(config, writable, start + 4), start)]
  }

  lemma FirstParsed(shapes: seq<Shape>, config: seq<bv32>, writable: seq<bv32>, bars: seq<Bar>, start: nat,
                    barIndex: nat) returns (bars': seq<Bar>)
    requires |config| == |writable| == DWORDS && |bars| == BARS
    requires start <= LAST_BAR && start % 4 == 0 && FIRST_BAR + 4 * barIndex <= start
    requires Laid(shapes, config, writable, start)
    ensures bars' == FirstRecorded(config, writable, bars, start, barIndex)
    ensures ParsedFrom(config, writable, bars, start, barIndex) ==
            ParsedFrom(config, writable, bars', start + Width(shapes[0]), barIndex + 1)
  {
    hide Implements, Probed, Parsed, IsWide;
    WidthAgrees(shapes[0], RegisterAt(config, writable, start), RegisterAt(config, writable, start + 4));
    bars' := FirstRecorded(config, writable, bars, start, barIndex);
  }

  lemma FirstMatches(shapes: seq<Shape>, config: seq<bv32>, writable: seq<bv32>, bars: seq<Bar>, recorded: seq<Bar>,
                     start: nat, barIndex: nat)
    requires |config| == |writable| == DWORDS && |bars| == |recorded| == BARS
    requires start <= LAST_BAR && start % 4 == 0 && FIRST_BAR + 4 * barIndex <= start
    requires Laid(shapes, config, writable, start)
    requires recorded[barIndex] == FirstRecorded(config, writable, bars, start, barIndex)[barIndex]
    ensures Matches(shapes, config, writable, start, 0, bars, recorded, barIndex)
  {
    hide Implements, Record, Exact, Sizable;
    if Sizable(shapes[0]) {
      BarExact(shapes[0], bars[barIndex], RegisterAt(config, writable, start), RegisterAt(config, writable, start + 4),
               start);
    }
  }

  lemma LaterMatches(shapes: seq<Shape>, config: seq<bv32>, writable: seq<bv32>, bars: seq<Bar>, recorded: seq<Bar>,
                     start: nat, barIndex: nat, i: nat)
    requires |config| == |writable| == DWORDS && |bars| == |recorded| == BARS && 0 < i < |shapes|
    requires start <= LAST_BAR && start % 4 == 0 && FIRST_BAR + 4 * barIndex <= start
    requires Matches(shapes[1..], config, writable, start + Width(shapes[0]), i - 1,
                     FirstRecorded(config, writable, bars, start, barIndex), recorded, barIndex + 1)
    ensures Matches(shapes, config, writable, start, i, bars, recorded, barIndex)
  {
    hide Record, Exact, Sizable;
  }

  /**
    On a device implementing any row of registers, BAR i records register i at its own offset, exactly unless it is a
    64-bit register without upper bits; BARs past the last register stay as they were.
  */
  lemma {:induction false} DeviceSized(shapes: seq<Shape>, config: seq<bv32>, writable: seq<bv32>, bars: seq<Bar>,
                                       start: nat, barIndex: nat)
    requires |config| == |writable| == DWORDS && |bars| == BARS
    requires start % 4 == 0 && FIRST_BAR + 4 * barIndex <= start
    requires Laid(shapes, config, writable, start)
    ensures var recorded := ParsedFrom(config, writable, bars, start, barIndex);
            |recorded| == BARS &&
            (forall k | 0 <= k < BARS && !(barIndex <= k < barIndex + |shapes|) :: recorded[k] == bars[k]) &&
            (forall i: nat | i < |shapes| :: Matches(shapes, config, writable, start, i, bars, recorded, barIndex))
    decreases |shapes|
  {
    hide Implements, Matches, Record;
    if start <= LAST_BAR {
      var next := start + Width(shapes[0]);
      var bars' := FirstParsed(shapes, config, writable, bars, start, barIndex);
      DeviceSized(shapes[1..], config, writable, bars', next, barIndex + 1);
      var recorded := ParsedFrom(config, writable, bars, start, barIndex);
      FirstMatches(shapes, config, writable, bars, recorded, start, barIndex);
      forall i: nat | i < |shapes| ensures Matches(shapes, config, writable, start, i, bars, recorded, barIndex)
      {
        if i != 0 {
          assert Matches(shapes[1..], config, writable, next, i - 1, bars', recorded, barIndex + 1);
          LaterMatches(shapes, config, writable, bars, recorded, start, barIndex, i);
        }
      }
    }
  }
}
