/** What a device supports and holds to begin with, from what its registers accept and what they held. */
module AttributeOffers {

  import opened PciTopology
  import opened AttributeBits
  import opened BitSets
  import opened AttributeTree

  /** What the command and bridge-control registers of a device accept when tested, and what they held. */
  datatype Registers = Registers(command: bv16, control: bv16, oldCommand: bv16, oldControl: bv16)

  const COMMAND_IO: bv16 := 1
  const COMMAND_MEMORY: bv16 := 2
  const COMMAND_BUS_MASTER: bv16 := 4
  const COMMAND_SNOOP: bv16 := 0x20
  const CONTROL_ISA: bv16 := 4
  const CONTROL_VGA: bv16 := 8
  const CONTROL_VGA_16: bv16 := 0x10

  function Bit(condition: bool, mask: bv64): bv64 {
    if condition then mask else 0
  }

  function On(register: bv16, mask: bv16): bool {
    register & mask != 0
  }

  /** The attributes the bits of the two registers stand for. */
  function FromRegisters(command: bv16, control: bv16): bv64 {
    Bit(On(command, COMMAND_IO), IO) | Bit(On(command, COMMAND_MEMORY), MEMORY) |
    Bit(On(command, COMMAND_BUS_MASTER), BUS_MASTER) |
    Bit(On(command, COMMAND_SNOOP) || On(control, CONTROL_VGA), VGA_PALETTE_IO) |
    Bit(On(control, CONTROL_ISA), ISA_IO) | Bit(On(control, CONTROL_VGA), VGA_IO | VGA_MEMORY) |
    Bit(On(control, CONTROL_VGA_16), VGA_IO_16 | VGA_PALETTE_IO_16)
  }

  method RegisterAttributes(command: bv16, control: bv16) returns (attributes: bv64)
    ensures attributes == FromRegisters(command, control)
  {
    hide On;
    attributes := 0;
    if On(command, COMMAND_IO) {
      attributes := attributes | IO;
    }
    if On(command, COMMAND_MEMORY) {
      attributes := attributes | MEMORY;
    }
    if On(command, COMMAND_BUS_MASTER) {
      attributes := attributes | BUS_MASTER;
    }
    if On(command, COMMAND_SNOOP) {
      attributes := attributes | VGA_PALETTE_IO;
    }
    if On(control, CONTROL_ISA) {
      attributes := attributes | ISA_IO;
    }
    if On(control, CONTROL_VGA) {
      attributes := attributes | VGA_IO;
      attributes := attributes | VGA_MEMORY;
      attributes := attributes | VGA_PALETTE_IO;
    }
    if On(control, CONTROL_VGA_16) {
      attributes := attributes | VGA_IO_16;
      attributes := attributes | VGA_PALETTE_IO_16;
    }
  }

  /** Which attributes the registers stand for, one by one; there are no others. */
  lemma RegisterBits(command: bv16, control: bv16)
    ensures var found := FromRegisters(command, control);
            && (Has(found, IO) <==> On(command, COMMAND_IO))
            && (Has(found, MEMORY) <==> On(command, COMMAND_MEMORY))
            && (Has(found, BUS_MASTER) <==> On(command, COMMAND_BUS_MASTER))
            && (Has(found, ISA_IO) <==> On(control, CONTROL_ISA))
            && (Has(found, VGA_PALETTE_IO) <==> On(command, COMMAND_SNOOP) || On(control, CONTROL_VGA))
            && (Has(found, VGA_IO) <==> On(control, CONTROL_VGA)) && (Has(found, VGA_MEMORY) <==> On(control, CONTROL_VGA))
            && (Has(found, VGA_IO_16) <==> On(control, CONTROL_VGA_16))
            && (Has(found, VGA_PALETTE_IO_16) <==> On(control, CONTROL_VGA_16))
            && Within(found, IO | MEMORY | BUS_MASTER | ISA_IO | VGA_PALETTE_IO | VGA_IO | VGA_MEMORY | VGA_IO_16 |
                             VGA_PALETTE_IO_16)
  {
    hide On;
  }

  // ------------------------------------------------------------- what a device supports and holds

  const ANY_DEVICE: bv64 := 0xF880

  lemma ForAnyDevice()
    ensures ANY_DEVICE == MEMORY_WRITE_COMBINE | MEMORY_CACHED | MEMORY_DISABLE | EMBEDDED_DEVICE | EMBEDDED_ROM |
                          DUAL_ADDRESS_CYCLE
  {
  }

  /** What any kind of device offers, given the attributes its registers stand for. */
  function Common(device: Device, found: bv64, isaAliases: bool): bv64 {
    var any := Or(found, ANY_DEVICE);
    if device.isLpc then Or(any, ISA_MOTHERBOARD_IO | (if isaAliases then ISA_IO else ISA_IO_16)) else any
  }

  /** What a bridge, an IDE controller or a VGA device makes of that. */
  function Particular(device: Device, found: bv64, vgaAliases: bool): bv64 {
    var ide := if device.isBridge || device.isIde then Or(found, IDE_PRIMARY_IO | IDE_SECONDARY_IO) else found;
    if device.isBridge then
      Minus(ide, if vgaAliases then VGA_IO_16 | VGA_PALETTE_IO_16 else VGA_IO | VGA_PALETTE_IO)
    else if device.isVga then Or(ide, VGA_MEMORY | (if vgaAliases then VGA_IO else VGA_IO_16))
    else ide
  }

  /** What a device could support, whatever is above it. */
  function Offered(device: Device, command: bv16, control: bv16, isaAliases: bool, vgaAliases: bool): bv64 {
    Particular(device, Common(device, FromRegisters(command, control), isaAliases), vgaAliases)
  }

  /** What a device supports below a parent. */
  function Supported(offered: bv64, above: bv64): bv64 {
    And(offered, Or(above, DEVICE_ENABLE))
  }

  /** The largest set of attributes that the device offers, and that its parent supports or are for the device alone. */
  lemma SupportedExactly(offered: bv64, above: bv64, b: bv64)
    ensures Within(b, Supported(offered, above)) <==> Within(b, offered) && Within(b, Or(above, DEVICE_ENABLE))
  {
    hide And, Or, Within;
    WithinBoth(b, offered, Or(above, DEVICE_ENABLE));
  }

  lemma SupportedWithin(offered: bv64, above: bv64)
    ensures Within(Supported(offered, above), Or(above, DEVICE_ENABLE))
  {
  }

  method CommonAttributes(device: Device, found: bv64, isaAliases: bool) returns (offered: bv64)
    ensures offered == Common(device, found, isaAliases)
  {
    hide Or;
    offered := Or(found, MEMORY_WRITE_COMBINE | MEMORY_CACHED | MEMORY_DISABLE | EMBEDDED_DEVICE | EMBEDDED_ROM |
                         DUAL_ADDRESS_CYCLE);
    if device.isLpc {
      offered := Or(offered, ISA_MOTHERBOARD_IO | (if isaAliases then ISA_IO else ISA_IO_16));
    }
  }

  method ParticularAttributes(device: Device, found: bv64, vgaAliases: bool) returns (offered: bv64)
    ensures offered == Particular(device, found, vgaAliases)
  {
    hide Or, Minus;
    offered := found;
    if device.isBridge {
      offered := Or(offered, IDE_PRIMARY_IO | IDE_SECONDARY_IO);
      if vgaAliases {
        offered := Minus(offered, VGA_IO_16 | VGA_PALETTE_IO_16);
      } else {
        offered := Minus(offered, VGA_IO | VGA_PALETTE_IO);
      }
    } else {
      if device.isIde {
        offered := Or(offered, IDE_PRIMARY_IO | IDE_SECONDARY_IO);
      }
      if device.isVga {
        offered := Or(offered, VGA_MEMORY | (if vgaAliases then VGA_IO else VGA_IO_16));
      }
    }
  }

  /** Which attributes a device adds to, or drops from, those its registers stand for: ISA, and the device's own. */
  lemma IsaBits(device: Device, found: bv64, isaAliases: bool, vgaAliases: bool)
    ensures var offered := Particular(device, Common(device, found, isaAliases), vgaAliases);
            && (Has(offered, ISA_MOTHERBOARD_IO) <==> Has(found, ISA_MOTHERBOARD_IO) || device.isLpc)
            && (Has(offered, ISA_IO) <==> Has(found, ISA_IO) || (device.isLpc && isaAliases))
            && (Has(offered, ISA_IO_16) <==> Has(found, ISA_IO_16) || (device.isLpc && !isaAliases))
  {
  }

  lemma CommonKeeps(device: Device, found: bv64, isaAliases: bool)
    ensures var common := Common(device, found, isaAliases);
            && (Has(common, IO) <==> Has(found, IO)) && (Has(common, MEMORY) <==> Has(found, MEMORY))
            && (Has(common, BUS_MASTER) <==> Has(found, BUS_MASTER))
            && (Has(common, IDE_PRIMARY_IO) <==> Has(found, IDE_PRIMARY_IO))
            && (Has(common, IDE_SECONDARY_IO) <==> Has(found, IDE_SECONDARY_IO))
  {
  }

  lemma CommonOffers(device: Device, found: bv64, isaAliases: bool)
    ensures Within(ANY_DEVICE, Common(device, found, isaAliases))
  {
  }

  lemma ParticularKeeps(device: Device, common: bv64, vgaAliases: bool)
    ensures var offered := Particular(device, common, vgaAliases);
            && (Has(offered, IO) <==> Has(common, IO)) && (Has(offered, MEMORY) <==> Has(common, MEMORY))
            && (Has(offered, BUS_MASTER) <==> Has(common, BUS_MASTER))
  {
  }

  lemma ParticularOffers(device: Device, common: bv64, vgaAliases: bool)
    ensures Within(ANY_DEVICE, common) ==> Within(ANY_DEVICE, Particular(device, common, vgaAliases))
  {
  }

  lemma ParticularIde(device: Device, common: bv64, vgaAliases: bool)
    ensures var offered := Particular(device, common, vgaAliases);
            && (Has(offered, IDE_PRIMARY_IO) <==> Has(common, IDE_PRIMARY_IO) || device.isBridge || device.isIde)
            && (Has(offered, IDE_SECONDARY_IO) <==> Has(common, IDE_SECONDARY_IO) || device.isBridge || device.isIde)
  {
  }

  lemma VgaBits(device: Device, found: bv64, isaAliases: bool, vgaAliases: bool)
    ensures var offered := Particular(device, Common(device, found, isaAliases), vgaAliases);
            && (Has(offered, VGA_MEMORY) <==> Has(found, VGA_MEMORY) || (device.isVga && !device.isBridge))
            && (Has(offered, VGA_IO) <==>
                if device.isBridge then vgaAliases && Has(found, VGA_IO) else Has(found, VGA_IO) || (device.isVga && vgaAliases))
            && (Has(offered, VGA_IO_16) <==>
                if device.isBridge then !vgaAliases && Has(found, VGA_IO_16)
                else Has(found, VGA_IO_16) || (device.isVga && !vgaAliases))
  {
  }

  lemma PaletteBits(device: Device, found: bv64, isaAliases: bool, vgaAliases: bool)
    ensures var offered := Particular(device, Common(device, found, isaAliases), vgaAliases);
            && (Has(offered, VGA_PALETTE_IO) <==> Has(found, VGA_PALETTE_IO) && (!device.isBridge || vgaAliases))
            && (Has(offered, VGA_PALETTE_IO_16) <==> Has(found, VGA_PALETTE_IO_16) && (!device.isBridge || !vgaAliases))
  {
  }

  lemma NoOtherRegisterBits(command: bv16, control: bv16)
    ensures var found := FromRegisters(command, control);
            && !Has(found, ISA_MOTHERBOARD_IO) && !Has(found, ISA_IO_16)
            && !Has(found, IDE_PRIMARY_IO) && !Has(found, IDE_SECONDARY_IO)
  {
    hide On;
  }

  /** Which attributes a device offers, one by one: ISA, IDE, VGA and palette resources, and what its registers allow. */
  lemma OfferedBits(device: Device, command: bv16, control: bv16, isaAliases: bool, vgaAliases: bool)
    ensures var offered := Offered(device, command, control, isaAliases, vgaAliases);
            && (Has(offered, ISA_MOTHERBOARD_IO) <==> device.isLpc)
            && (Has(offered, ISA_IO) <==> On(control, CONTROL_ISA) || (device.isLpc && isaAliases))
            && (Has(offered, ISA_IO_16) <==> device.isLpc && !isaAliases)
            && (Has(offered, IDE_PRIMARY_IO) <==> device.isBridge || device.isIde)
            && (Has(offered, IDE_SECONDARY_IO) <==> device.isBridge || device.isIde)
            && (Has(offered, VGA_MEMORY) <==> On(control, CONTROL_VGA) || (device.isVga && !device.isBridge))
            && (Has(offered, VGA_IO) <==>
                if device.isBridge then vgaAliases && On(control, CONTROL_VGA)
                else On(control, CONTROL_VGA) || (device.isVga && vgaAliases))
            && (Has(offered, VGA_IO_16) <==>
                if device.isBridge then !vgaAliases && On(control, CONTROL_VGA_16)
                else On(control, CONTROL_VGA_16) || (device.isVga && !vgaAliases))
            && (Has(offered, VGA_PALETTE_IO) <==>
                (!device.isBridge || vgaAliases) && (On(command, COMMAND_SNOOP) || On(control, CONTROL_VGA)))
            && (Has(offered, VGA_PALETTE_IO_16) <==> (!device.isBridge || !vgaAliases) && On(control, CONTROL_VGA_16))
            && (Has(offered, IO) <==> On(command, COMMAND_IO)) && (Has(offered, MEMORY) <==> On(command, COMMAND_MEMORY))
            && (Has(offered, BUS_MASTER) <==> On(command, COMMAND_BUS_MASTER))
            && Within(ANY_DEVICE, offered)
  {
    hide On, FromRegisters, Common, Particular, Has, Within;
    var found := FromRegisters(command, control);
    RegisterBits(command, control);
    NoOtherRegisterBits(command, control);
    IsaBits(device, found, isaAliases, vgaAliases);
    CommonKeeps(device, found, isaAliases);
    CommonOffers(device, found, isaAliases);
    ParticularKeeps(device, Common(device, found, isaAliases), vgaAliases);
    ParticularOffers(device, Common(device, found, isaAliases), vgaAliases);
    ParticularIde(device, Common(device, found, isaAliases), vgaAliases);
    VgaBits(device, found, isaAliases, vgaAliases);
    PaletteBits(device, found, isaAliases, vgaAliases);
  }

  /** A bridge offers VGA decoding of 10 or of 16 address bits, never of both. */
  lemma BridgeAgrees(device: Device, found: bv64, vgaAliases: bool)
    requires device.isBridge
    ensures !Conflicting(Particular(device, found, vgaAliases))
  {
  }

  /** The bridge-control register exists on bridges only. */
  function ControlOf(device: Device, control: bv16): bv16 {
    if device.isBridge then control else 0
  }

  /** What a device holds to begin with. */
  function Initial(device: Device, registers: Registers, embeddedRom: bool): bv64 {
    Or(FromRegisters(registers.oldCommand, ControlOf(device, registers.oldControl)),
       Bit(!embeddedRom, EMBEDDED_ROM))
  }

  /** A device holds to begin with what its registers held, and the embedded-ROM attribute if it has no such ROM. */
  lemma InitialBits(device: Device, registers: Registers, embeddedRom: bool, mask: bv64)
    ensures var control := if device.isBridge then registers.oldControl else 0;
            Has(Initial(device, registers, embeddedRom), mask) <==>
            Has(FromRegisters(registers.oldCommand, control), mask) || (!embeddedRom && Has(EMBEDDED_ROM, mask))
  {
    hide FromRegisters, Or, Has;
    var control := if device.isBridge then registers.oldControl else 0;
    EitherHas(FromRegisters(registers.oldCommand, control), Bit(!embeddedRom, EMBEDDED_ROM), mask);
    HasNothing(mask);
  }

  lemma HasNothing(mask: bv64)
    ensures !Has(0, mask)
  {
  }

  /** Without a bridge-control register no device starts out decoding VGA resources. */
  lemma StartsInactive(device: Device, registers: Registers, embeddedRom: bool)
    requires !device.isBridge
    ensures !Has(Initial(device, registers, embeddedRom), VGA_DECODE)
  {
  }

  lemma StillAgrees(offered: bv64, above: bv64)
    requires !Conflicting(offered)
    ensures !Conflicting(Supported(offered, above))
  {
  }

  /**
    Directly below a root bridge there may be a conflict: a VGA device that can snoop the palette supports the palette
    with 10 address bits, and VGA decoding with 16.
  */
  lemma SnoopingVgaConflicts(device: Device, command: bv16, above: bv64, isaAliases: bool)
    requires device.isVga && !device.isBridge && On(command, COMMAND_SNOOP)
    requires Within(VGA_PALETTE_IO | VGA_IO_16, above)
    ensures Conflicting(Supported(Offered(device, command, 0, isaAliases, false), above))
  {
    var found := FromRegisters(command, 0);
    assert And(found, VGA_PALETTE_IO) == VGA_PALETTE_IO;
    var common := Common(device, found, isaAliases);
    assert And(common, VGA_PALETTE_IO) == VGA_PALETTE_IO;
    var offered := Particular(device, common, false);
    assert And(offered, VGA_PALETTE_IO) == VGA_PALETTE_IO && And(offered, VGA_IO_16) == VGA_IO_16;
  }
}
