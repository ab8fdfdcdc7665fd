/**
  PciParseBar: size a base address register by writing all ones and reading back which bits stick (section 6.2.5.1 of
  the PCI Local Bus Specification).
*/
module BarSizing {

  datatype BarType = Unknown | Io16 | Io32 | Mem32 | PMem32 | Mem64 | PMem64

  datatype Bar = Bar(baseAddress: bv64, length: bv64, alignment: bv64, barType: BarType, offset: nat)

  /** What a probe of one dword found: the bits read back after writing all ones, and the value before. */
  datatype Probe = Probe(value: bv32, original: bv32)

  const SIZE_4KB: bv64 := 0x1000
  const IO_MASK: bv32 := 0xFFFF_FFFC
  const MEMORY_MASK: bv32 := 0xFFFF_FFF0
  const ALL_ONE: bv32 := 0xFFFF_FFFF
  const BARS: nat := 6
  const FIRST_BAR: nat := 0x10
  const LAST_BAR: nat := 0x24
  const DWORDS: nat := 64

  // ------------------------------------------------------------- filling bits

  /** All bits from the highest set bit of v down. */
  function Smear(v: bv32): bv32 {
    var a := v | (v >> 1);
    var b := a | (a >> 2);
    var c := b | (b >> 4);
    var d := c | (c >> 8);
    d | (d >> 16)
  }

  /** v with every bit above its highest set bit set too. */
  function Filled(v: bv32): bv32 {
    v | !Smear(v)
  }

  /** After `index` rounds the loop holds what is left of v, and it was not yet zero a round ago. */
  predicate Shifted(v: bv32, data: bv32, index: bv6) {
    index <= 32 && data == v >> index && (index != 0 ==> v >> (index - 1) != 0)
  }

  /** v with the bits from position `index` on set. */
  function Completed(v: bv32, index: bv6): bv32 {
    if index <= 32 then v | (ALL_ONE << index) else v
  }

  function Succ(index: bv6): bv6 {
    index + 1
  }

  lemma ShiftStarts(v: bv32)
    ensures Shifted(v, v, 0)
  {
  }

  /** Rounds the loop can still make. */
  function RoundsLeft(index: bv6): nat {
    if index <= 32 then 32 - index as nat else 0
  }

  lemma ShiftBound(v: bv32, data: bv32, index: bv6)
    requires Shifted(v, data, index) && data != 0
    ensures index < 32
  {
  }

  lemma ShiftSteps(v: bv32, data: bv32, index: bv6)
    requires Shifted(v, data, index) && data != 0 && index < 32
    ensures Shifted(v, data >> 1, Succ(index))
  {
  }

  lemma FewerRounds(index: bv6)
    requires index < 32
    ensures RoundsLeft(Succ(index)) < RoundsLeft(index)
  {
  }

  /** The mask built from the bit length of a value covers just the bits above its highest set bit. */
  lemma ShiftEnds(v: bv32, index: bv6)
    requires Shifted(v, 0, index)
    ensures Completed(v, index) == Filled(v)
  {
    assert ALL_ONE << index == !Smear(v);
  }

  /** The loop that completes the upper half of a 64-bit BAR on devices with fewer than 64 address bits. */
  method FillUpperBits(value: bv32) returns (filled: bv32)
    ensures filled == Filled(value)
  {
    hide Succ, Shifted, Completed, Filled, RoundsLeft;
    ShiftStarts(value);
    var data := value;
    var index: bv6 := 0;
    while data != 0
      invariant Shifted(value, data, index)
      decreases RoundsLeft(index)
    {
      ShiftBound(value, data, index);
      ShiftSteps(value, data, index);
      FewerRounds(index);
      data := data >> 1;
      index := Succ(index);
    }
    ShiftEnds(value, index);
    filled := Completed(value, index);
  }

  // ------------------------------------------------------------- one register

  /** What a dword holds after a write: only its writable bits take the new value. */
  function Written(was: bv32, writable: bv32, value: bv32): bv32 {
    (value & writable) | (was & !writable)
  }

  lemma WriteBack(was: bv32, writable: bv32, other: bv32)
    ensures Written(Written(was, writable, other), writable, was) == was
  {
  }

  /** What probing a dword finds. */
  function Probed(was: bv32, writable: bv32): Probe {
    Probe(Written(was, writable, ALL_ONE), was)
  }

  /** The two's complement of the address bits that stick. */
  function Negated(value: bv32, mask: bv32): bv32 {
    !(value & mask) + 1
  }

  function Widened(v: bv32): bv64 {
    v as bv64
  }

  function Joined(low: bv32, high: bv32): bv64 {
    (low as bv64) | ((high as bv64) << 32)
  }

  function Negated64(v: bv64): bv64 {
    !v + 1
  }

  function LessOne(v: bv64): bv64 {
    v - 1
  }

  function IsIo(value: bv32): bool {
    value & 1 != 0
  }

  /** Does an I/O register decode more than 16 address bits? */
  function IsIo32(value: bv32): bool {
    value & 0xFFFF_0000 != 0
  }

  function IsPrefetchable(value: bv32): bool {
    value & 8 != 0
  }

  /** The type bits of a memory register. */
  function MemoryKind(value: bv32): bv32 {
    value & 7
  }

  /** Does the register claim the dword after it as its upper half? */
  function IsWide(value: bv32): bool {
    value != 0 && !IsIo(value) && MemoryKind(value) == 4
  }

  function Masked(value: bv32, mask: bv32): bv32 {
    value & mask
  }

  /** Memory BARs are aligned at least to a page. */
  function MemoryAlignment(length: bv64): bv64 {
    if length < SIZE_4KB then SIZE_4KB - 1 else LessOne(length)
  }

  /** A BAR of no length is no BAR. */
  function Rechecked(bar: Bar): Bar {
    if bar.length == 0 then bar.(barType := Unknown, baseAddress := 0, alignment := 0) else bar
  }

  /** The size an I/O register claims; only 16 bits of it when it decodes no more. */
  function IoLength(value: bv32): bv64 {
    Widened(if IsIo32(value) then Negated(value, IO_MASK) else Masked(Negated(value, IO_MASK), 0xFFFF))
  }

  function IoBar(low: Probe, offset: nat): Bar {
    Bar(Widened(Masked(low.original, IO_MASK)), IoLength(low.value), LessOne(IoLength(low.value)),
        if IoLength(low.value) == 0 then Unknown else if IsIo32(low.value) then Io32 else Io16, offset)
  }

  /** A 32-bit memory BAR, or one of a reserved type. */
  function MemoryBar(low: Probe, offset: nat): Bar {
    var length := Widened(Negated(low.value, MEMORY_MASK));
    Bar(Widened(Masked(low.original, MEMORY_MASK)), length, MemoryAlignment(length),
        if MemoryKind(low.value) != 0 then Unknown else if IsPrefetchable(low.value) then PMem32 else Mem32, offset)
  }

  /** A 64-bit memory BAR whose upper half is absent: what was kept of the lower half stands. */
  function HalfBar(low: Probe, offset: nat): Bar {
    var kept := Widened(Masked(low.value, MEMORY_MASK));
    Bar(Widened(Masked(low.original, MEMORY_MASK)), kept, LessOne(kept),
        if kept == 0 then Unknown else if IsPrefetchable(low.value) then PMem64 else Mem64, offset)
  }

  /** A 64-bit memory BAR. */
  function WideBar(low: Probe, high: Probe, offset: nat): Bar {
    var length := Negated64(Joined(Masked(low.value, MEMORY_MASK), Filled(high.value)));
    Bar(Joined(Masked(low.original, MEMORY_MASK), high.original), length, MemoryAlignment(length),
        if IsPrefetchable(low.value) then PMem64 else Mem64, offset)
  }

  /** What PciParseBar records, given the probes of a dword and of the one after it. */
  function Parsed(was: Bar, low: Probe, high: Probe, offset: nat): Bar {
    if low.value == 0 then Bar(0, 0, 0, was.barType, offset)
    else if IsIo(low.value) then Rechecked(IoBar(low, offset))
    else if MemoryKind(low.value) != 4 then Rechecked(MemoryBar(low, offset))
    else if high.value == 0 then HalfBar(low, offset)
    else Rechecked(WideBar(low, high, offset))
  }

  // ------------------------------------------------------------- the whole device

  /** The dword offsets from one to before the other. */
  function Offsets(from: nat, to: nat): (s: seq<nat>)
    requires from <= to
  {
    seq((to - from) / 4, k => from + 4 * k)
  }

  /** The BARs as recorded by parsing from an offset on. */
  function ParsedFrom(config: seq<bv32>, writable: seq<bv32>, bars: seq<Bar>, offset: nat, barIndex: nat): seq<Bar>
    requires |config| == |writable| == DWORDS && |bars| == BARS
    requires offset % 4 == 0 && FIRST_BAR + 4 * barIndex <= offset
    decreases LAST_BAR + 8 - offset
  {
    if offset > LAST_BAR then bars
    else
      var i := offset / 4;
      var low, high := Probed(config[i], writable[i]), Probed(config[i + 1], writable[i + 1]);
      ParsedFrom(config, writable, bars[barIndex := Parsed(bars[barIndex], low, high, offset)],
                 if IsWide(low.value) then offset + 8 else offset + 4, barIndex + 1)
  }

  /** A device's configuration space as its registers behave: each dword has writable bits and bits that stay. */
  class PciDevice {
    const writable: seq<bv32>
    var config: seq<bv32>
    var bars: seq<Bar>
    /** The offsets probed so far, in order. */
    ghost var probed: seq<nat>

    ghost predicate Valid()
      reads this
    {
      |writable| == DWORDS && |config| == DWORDS && |bars| == BARS
    }

    method Read(offset: nat) returns (value: bv32)
      requires Valid() && offset % 4 == 0 && offset / 4 < DWORDS
      ensures value == config[offset / 4]
    {
      value := config[offset / 4];
    }

    method Write(offset: nat, value: bv32)
      requires Valid() && offset % 4 == 0 && offset / 4 < DWORDS
      modifies this`config
      ensures Valid()
      ensures config == old(config)[offset / 4 := Written(old(config[offset / 4]), writable[offset / 4], value)]
    {
      config := config[offset / 4 := Written(config[offset / 4], writable[offset / 4], value)];
    }

    /** Probe one dword; the register is left as it was. */
    method BarExisted(offset: nat) returns (present: bool, value: bv32, original: bv32)
      requires Valid() && offset % 4 == 0 && offset / 4 < DWORDS
      modifies this`config, this`probed
      ensures Valid() && config == old(config) && probed == old(probed) + [offset]
      ensures Probe(value, original) == Probed(config[offset / 4], writable[offset / 4])
      ensures present <==> value != 0
    {
      hide Written;
      var i := offset / 4;
      original := Read(offset);
      Write(offset, ALL_ONE);
      value := Read(offset);
      WriteBack(original, writable[i], ALL_ONE);
      Write(offset, original);
      probed := probed + [offset];
      assert config == old(config);
      present := value != 0;
    }

    function ProbeAt(offset: nat): Probe
      requires Valid() && offset % 4 == 0 && offset / 4 < DWORDS
      reads this
    {
      Probed(config[offset / 4], writable[offset / 4])
    }

    method ParseIo(bar: Bar, value: bv32, original: bv32) returns (parsed: Bar)
      ensures parsed == IoBar(Probe(value, original), bar.offset)
    {
      hide Negated, Widened, LessOne, Masked, IsIo32;
      parsed := bar;
      if IsIo32(value) {
        parsed := parsed.(barType := Io32, length := Widened(Negated(value, IO_MASK)));
      } else {
        parsed := parsed.(barType := Io16, length := Widened(Masked(Negated(value, IO_MASK), 0xFFFF)));
      }
      parsed := parsed.(alignment := LessOne(parsed.length));
      if parsed.length == 0 {
        parsed := parsed.(barType := Unknown);
      }
      parsed := parsed.(baseAddress := Widened(Masked(original, IO_MASK)));
    }

    method ParseMemory(bar: Bar, value: bv32, original: bv32) returns (parsed: Bar)
      ensures parsed == MemoryBar(Probe(value, original), bar.offset)
    {
      hide Negated, Widened, MemoryAlignment, Masked, MemoryKind, IsPrefetchable;
      parsed := bar.(baseAddress := Widened(Masked(original, MEMORY_MASK)));
      if MemoryKind(value) != 0 {
        parsed := parsed.(barType := Unknown);
      } else if IsPrefetchable(value) {
        parsed := parsed.(barType := PMem32);
      } else {
        parsed := parsed.(barType := Mem32);
      }
      parsed := parsed.(length := Widened(Negated(value, MEMORY_MASK)));
      parsed := parsed.(alignment := MemoryAlignment(parsed.length));
    }

    /** The upper half is probed too; when it is absent the lower half is recorded as it stands. */
    method ParseWide(bar: Bar, offset: nat, value: bv32, original: bv32) returns (parsed: Bar, present: bool)
      requires Valid() && offset % 4 == 0 && offset / 4 < DWORDS
      modifies this`config, this`probed
      ensures Valid() && config == old(config) && probed == old(probed) + [offset]
      ensures present <==> ProbeAt(offset).value != 0
      ensures parsed == if present then WideBar(Probe(value, original), ProbeAt(offset), bar.offset)
                        else HalfBar(Probe(value, original), bar.offset)
    {
      hide Widened, LessOne, MemoryAlignment, Masked, IsPrefetchable, Joined, Negated64, Filled, Probed;
      parsed := bar.(baseAddress := Widened(Masked(original, MEMORY_MASK)));
      if IsPrefetchable(value) {
        parsed := parsed.(barType := PMem64);
      } else {
        parsed := parsed.(barType := Mem64);
      }
      var kept := Masked(value, MEMORY_MASK);
      parsed := parsed.(length := Widened(kept), alignment := LessOne(Widened(kept)));
      var highValue, highOriginal;
      present, highValue, highOriginal := BarExisted(offset);
      if !present {
        if parsed.length == 0 {
          parsed := parsed.(barType := Unknown);
        }
        return;
      }
      var filled := FillUpperBits(highValue);
      parsed := parsed.(baseAddress := Joined(Masked(original, MEMORY_MASK), highOriginal));
      parsed := parsed.(length := Negated64(Joined(kept, filled)));
      parsed := parsed.(alignment := MemoryAlignment(parsed.length));
    }

    /** A BAR that exists: by its lowest bit I/O, by the next two a wide memory BAR or another one. */
    method ParsePresent(was: Bar, offset: nat, value: bv32, original: bv32) returns (bar: Bar, next: nat)
      requires Valid() && offset % 4 == 0 && offset / 4 + 1 < DWORDS
      requires value != 0 && was.offset == offset
      modifies this`config, this`probed
      ensures Valid() && config == old(config)
      ensures bar == Parsed(was, Probe(value, original), ProbeAt(offset + 4), offset)
      ensures next == if IsWide(value) then offset + 8 else offset + 4
      ensures probed == old(probed) + if IsWide(value) then [offset + 4] else []
    {
      hide IoBar, MemoryBar, WideBar, HalfBar, IsIo, MemoryKind, Probed, Rechecked;
      next := offset + 4;
      if IsIo(value) {
        bar := ParseIo(was, value, original);
      } else if MemoryKind(value) == 4 {
        var present;
        bar, present := ParseWide(was, next, value, original);
        next := next + 4;
        if !present {
          return;
        }
      } else {
        bar := ParseMemory(was, value, original);
      }
      bar := Recheck(bar);
    }

    method Recheck(was: Bar) returns (bar: Bar)
      ensures bar == Rechecked(was)
    {
      bar := was;
      if bar.length == 0 {
        bar := bar.(barType := Unknown, baseAddress := 0, alignment := 0);
      }
    }

    /** Parse one BAR, or two dwords that make one; returns the offset after it. */
    method PciParseBar(offset: nat, barIndex: nat) returns (next: nat)
      requires Valid() && offset % 4 == 0 && offset / 4 + 1 < DWORDS && barIndex < BARS
      modifies this
      ensures Valid() && config == old(config)
      ensures bars == old(bars)[barIndex := Parsed(old(bars[barIndex]), ProbeAt(offset), ProbeAt(offset + 4), offset)]
      ensures next == if IsWide(ProbeAt(offset).value) then offset + 8 else offset + 4
      ensures probed == old(probed) + if IsWide(ProbeAt(offset).value) then [offset, offset + 4] else [offset]
    {
      hide IoBar, MemoryBar, WideBar, HalfBar, IsIo, MemoryKind, Probed, Rechecked;
      var present, value, original := BarExisted(offset);
      var bar := bars[barIndex].(offset := offset);
      next := offset + 4;
      if present {
        bar, next := ParsePresent(bar, offset, value, original);
      } else {
        bar := bar.(baseAddress := 0, length := 0, alignment := 0);
      }
      bars := bars[barIndex := bar];
    }

    /** Parse all BARs of the device; every dword of 10h-24h is probed once, in order, and nothing is left changed. */
    method ParseBars() returns (end: nat)
      requires Valid()
      modifies this
      ensures Valid() && config == old(config)
      ensures end == 0x28 || end == 0x2C
      ensures probed == old(probed) + Offsets(FIRST_BAR, end)
      ensures bars == ParsedFrom(config, writable, old(bars), FIRST_BAR, 0)
    {
      hide Parsed, Probed, IsWide;
      var offset, barIndex := FIRST_BAR, 0;
      while offset <= LAST_BAR && barIndex < BARS
        invariant Valid() && config == old(config)
        invariant offset % 4 == 0 && FIRST_BAR + 4 * barIndex <= offset <= LAST_BAR + 8
        invariant probed == old(probed) + Offsets(FIRST_BAR, offset)
        invariant ParsedFrom(config, writable, bars, offset, barIndex) ==
                  ParsedFrom(config, writable, old(bars), FIRST_BAR, 0)
        decreases LAST_BAR + 8 - offset
      {
        offset := PciParseBar(offset, barIndex);
        barIndex := barIndex + 1;
      }
      end := offset;
    }
  }
}
