/** Memory map descriptors as handed over by the boot loader
    (BootContract/Include/BootContract/Structures.h; UEFI Specification, section 7.2.3). */
module Descriptors {
  import opened Machine

  const LOADER_CODE := 1
  const LOADER_DATA := 2
  const BOOT_SERVICES_CODE := 3
  const BOOT_SERVICES_DATA := 4
  const CONVENTIONAL_MEMORY := 7
  const ACPI_RECLAIM_MEMORY := 9
  const ACPI_MEMORY_NVS := 10

  datatype Descriptor = Descriptor(physicalBase: nat, pageCount: nat, attributes: nat, kind: nat, pad: nat)
  {
    function End(): nat {
      physicalBase + pageCount * PAGE
    }

    predicate Covers(address: nat) {
      physicalBase <= address < End()
    }
  }

  ghost predicate Covered(regions: seq<Descriptor>, address: nat) {
    exists d :: d in regions && d.Covers(address)
  }

  ghost function TotalPageCount(regions: seq<Descriptor>): nat {
    if regions == [] then 0 else TotalPageCount(regions[..|regions| - 1]) + regions[|regions| - 1].pageCount
  }

  /** KrIsUsableMemoryRegionType. */
  predicate IsUsable(kind: nat) {
    kind == LOADER_CODE || kind == LOADER_DATA || kind == BOOT_SERVICES_CODE || kind == BOOT_SERVICES_DATA
    || kind == CONVENTIONAL_MEMORY || kind == ACPI_RECLAIM_MEMORY
  }
}
