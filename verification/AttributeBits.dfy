/** The PCI I/O attributes (section 13.4 of the UEFI Specification) as bits, and the few facts used about them. */
module AttributeBits {

  import opened BitSets

  const ISA_MOTHERBOARD_IO: bv64 := 0x1
  const ISA_IO: bv64 := 0x2
  const VGA_PALETTE_IO: bv64 := 0x4
  const VGA_MEMORY: bv64 := 0x8
  const VGA_IO: bv64 := 0x10
  const IDE_PRIMARY_IO: bv64 := 0x20
  const IDE_SECONDARY_IO: bv64 := 0x40
  const MEMORY_WRITE_COMBINE: bv64 := 0x80
  const IO: bv64 := 0x100
  const MEMORY: bv64 := 0x200
  const BUS_MASTER: bv64 := 0x400
  const MEMORY_CACHED: bv64 := 0x800
  const MEMORY_DISABLE: bv64 := 0x1000
  const EMBEDDED_DEVICE: bv64 := 0x2000
  const EMBEDDED_ROM: bv64 := 0x4000
  const DUAL_ADDRESS_CYCLE: bv64 := 0x8000
  const ISA_IO_16: bv64 := 0x1_0000
  const VGA_PALETTE_IO_16: bv64 := 0x2_0000
  const VGA_IO_16: bv64 := 0x4_0000

  /** I/O, memory and bus mastering: the attributes that stay at the device. */
  const DEVICE_ENABLE: bv64 := 0x700

  /** The embedded-device, embedded-ROM and dual-address-cycle bits, which root bridges do not take. */
  const NOT_FOR_ROOT: bv64 := 0xE000

  /** A VGA device holding one of these is active. */
  const VGA_DECODE: bv64 := 0x4_0018

  /** The attributes that need the palette to be snooped. */
  const PALETTE: bv64 := 0x2_0004

  /** The command-register bit for palette snooping, which the snoop check also applies to attributes. */
  const SNOOP: bv64 := 0x20

  /** What the upstream bridge is asked for. */
  function Upstream(a: bv64): bv64 {
    a & !DEVICE_ENABLE
  }

  /** A request for all of I/O, memory and bus mastering is cut down to what the device supports. */
  function Requested(a: bv64, supports: bv64): bv64 {
    if a & DEVICE_ENABLE == DEVICE_ENABLE then a & supports else a
  }

  /** VGA decoding of 10 and of 16 address bits cannot be asked for together. */
  predicate Conflicting(a: bv64) {
    (a & VGA_IO != 0 && a & VGA_IO_16 != 0) || (a & VGA_IO != 0 && a & VGA_PALETTE_IO_16 != 0) ||
    (a & VGA_PALETTE_IO != 0 && a & VGA_IO_16 != 0) || (a & VGA_PALETTE_IO != 0 && a & VGA_PALETTE_IO_16 != 0)
  }

  /** A root bridge's attributes after a request to set or to clear some. */
  function RootRequest(enable: bool, held: bv64, a: bv64): bv64 {
    if enable then Or(held, Minus(a, NOT_FOR_ROOT)) else Minus(held, Minus(a, NOT_FOR_ROOT))
  }

  /** The combinations of attributes above, in terms of the attributes. */
  lemma Combinations()
    ensures DEVICE_ENABLE == IO | MEMORY | BUS_MASTER
    ensures NOT_FOR_ROOT == EMBEDDED_DEVICE | EMBEDDED_ROM | DUAL_ADDRESS_CYCLE
    ensures VGA_DECODE == VGA_MEMORY | VGA_IO | VGA_IO_16
    ensures PALETTE == VGA_PALETTE_IO | VGA_PALETTE_IO_16
  {
  }

  /** A request without VGA and palette bits does not conflict, whatever is cut off it. */
  lemma PlainRequest(a: bv64, supports: bv64)
    requires !Has(a, VGA_DECODE) && !Has(a, PALETTE)
    ensures !Has(Requested(a, supports), VGA_DECODE) && !Has(Requested(a, supports), PALETTE)
    ensures !Conflicting(Requested(a, supports))
  {
  }

  /** A conflict is one bit of the pair for 10 address bits together with one of the pair for 16. */
  lemma ConflictExactly(a: bv64)
    ensures Conflicting(a) <==> Has(a, Or(VGA_IO, VGA_PALETTE_IO)) && Has(a, Or(VGA_IO_16, VGA_PALETTE_IO_16))
  {
    hide Or;
    HasEither(a, VGA_IO, VGA_PALETTE_IO);
    HasEither(a, VGA_IO_16, VGA_PALETTE_IO_16);
  }

  /** A request with all of I/O, memory and bus mastering asks for what is supported; any other asks for all of itself. */
  lemma RequestedExactly(a: bv64, supports: bv64)
    ensures Within(DEVICE_ENABLE, a) ==> Requested(a, supports) == And(a, supports)
    ensures !Within(DEVICE_ENABLE, a) ==> Requested(a, supports) == a
    ensures Within(Requested(a, supports), supports) <==> Within(DEVICE_ENABLE, a) || Within(a, supports)
  {
  }

  lemma UpstreamExactly(a: bv64)
    ensures Upstream(a) == Minus(a, DEVICE_ENABLE)
  {
  }

  /** What is asked for changes nothing at a root bridge that holds all of it, or, to be disabled, none of it. */
  lemma RootUnchanged(enable: bool, held: bv64, a: bv64)
    ensures var asked := Minus(a, NOT_FOR_ROOT);
            && RootRequest(enable, held, a) == (if enable then Or(held, asked) else Minus(held, asked))
            && (RootRequest(enable, held, a) == held <==> if enable then Within(asked, held) else !Has(held, asked))
  {
    hide Or, Minus, Within, Has;
    ChangesNothing(held, Minus(a, NOT_FOR_ROOT));
  }

  lemma UpstreamSupported(a: bv64, supports: bv64, above: bv64)
    requires Within(a, supports) && Within(supports, Or(above, DEVICE_ENABLE))
    ensures Within(Upstream(a), above)
  {
  }

  lemma UpstreamAgrees(a: bv64, above: bv64)
    requires !Conflicting(a)
    ensures !Conflicting(Upstream(a))
  {
  }

  lemma UpstreamAsRequested(a: bv64, above: bv64)
    ensures Requested(Upstream(a), above) == Upstream(a) && Upstream(Upstream(a)) == Upstream(a)
  {
  }

  lemma DecodesEither(a: bv64, b: bv64)
    ensures Has(Or(a, b), VGA_DECODE) <==> Has(a, VGA_DECODE) || Has(b, VGA_DECODE)
  {
  }

  lemma DecodedBefore(a: bv64, b: bv64)
    ensures Has(Minus(a, b), VGA_DECODE) ==> Has(a, VGA_DECODE)
  {
  }

  /** What Set goes on to disable is supported, and is not cut down. */
  lemma DisableRequest(a: bv64, supports: bv64)
    ensures Within(Minus(supports, a), supports)
    ensures Requested(Minus(supports, a), supports) == Minus(supports, a)
  {
  }

  /** Enabling a request and disabling the rest of what is supported leaves, of that, just what was asked for. */
  lemma SetLeaves(held: bv64, a: bv64, supports: bv64)
    requires Within(Requested(a, supports), supports)
    ensures And(Minus(Or(held, Requested(a, supports)), Minus(supports, a)), supports) == And(a, supports)
  {
  }

  lemma AgreesWithin(supports: bv64, a: bv64)
    requires !Conflicting(supports)
    ensures !Conflicting(Minus(supports, a))
  {
  }

  lemma WithinAgrees(a: bv64, supports: bv64)
    requires Within(a, supports) && !Conflicting(supports)
    ensures !Conflicting(a)
  {
  }
}
