/** QWord address space descriptors (section 6.4.3.5.1 of the ACPI specification), as far as the PCI bus driver uses them. */
module AcpiDescriptors {

  const ADDRESS_SPACE_DESCRIPTOR: nat := 0x8A
  const END_TAG_DESCRIPTOR: nat := 0x79

  const TYPE_MEM: nat := 0
  const TYPE_IO: nat := 1

  datatype Descriptor = Descriptor(
    desc: nat,
    resType: nat,
    specificFlag: nat,
    granularity: nat,
    addrRangeMin: nat,
    addrRangeMax: nat,
    addrTranslationOffset: nat,
    addrLen: nat
  )

  /** The descriptors before index m are the list; the one at m ends it. */
  ghost predicate Terminated(ds: seq<Descriptor>, m: nat) {
    && m < |ds|
    && ds[m].desc == END_TAG_DESCRIPTOR
    && forall i :: 0 <= i < m ==> ds[i].desc != END_TAG_DESCRIPTOR
  }
}
