/**
 * The Quard Star physical memory map: a mask ROM holding the reset vector,
 * an on-chip SRAM, the first UART and the DRAM window. The table gives DRAM
 * a size of zero; the machine's configured RAM size takes its place when the
 * region is mapped.
 */
module MemoryMap {
  import opened ResetVector

  datatype RegionId = Mrom | Sram | Uart0 | Dram

  /** A physical address range: `size` bytes starting at `base`. */
  datatype MemMapEntry = MemMapEntry(base: nat, size: nat)
  {
    /** One past the last byte of the range. */
    function End(): nat
    {
      base + size
    }

    predicate Contains(addr: nat)
    {
      base <= addr < base + size
    }
  }

  /** The board's address table, with DRAM's placeholder size of zero. */
  function VirtMemmap(id: RegionId): (e: MemMapEntry)
    ensures e.size == 0 <==> id == Dram
    ensures id != Dram ==> e.End() <= 0x8000_0000
    ensures id == Dram ==> e.base == 0x8000_0000
  {
    match id
    case Mrom  => MemMapEntry(0x0, 0x8000)
    case Sram  => MemMapEntry(0x8000, 0x8000)
    case Uart0 => MemMapEntry(0x1000_0000, 0x100)
    case Dram  => MemMapEntry(0x8000_0000, 0x0)
  }

  /**
   * The range a region occupies once mapped: DRAM takes the machine's RAM
   * size, every other region its table entry.
   */
  function Resolved(id: RegionId, ramSize: nat): (e: MemMapEntry)
    ensures e.base == VirtMemmap(id).base
    ensures id == Dram ==> e.size == ramSize
    ensures id != Dram ==> e == VirtMemmap(id)
  {
    if id == Dram then VirtMemmap(Dram).(size := ramSize) else VirtMemmap(id)
  }

  /** No address lies in both ranges. */
  predicate Disjoint(a: MemMapEntry, b: MemMapEntry)
  {
    a.End() <= b.base || b.End() <= a.base
  }

  /**
   * Two distinct regions never share an address, whatever the RAM size:
   * every fixed region ends at or below the DRAM base.
   */
  lemma RegionsDisjoint(a: RegionId, b: RegionId, ramSize: nat, addr: nat)
    requires a != b
    ensures Disjoint(Resolved(a, ramSize), Resolved(b, ramSize))
    ensures !(Resolved(a, ramSize).Contains(addr) && Resolved(b, ramSize).Contains(addr))
  {
  }

  /**
   * The regions are laid out in increasing order MROM, SRAM, UART0, DRAM,
   * and the mask ROM ends exactly where the SRAM begins.
   */
  lemma RegionsOrdered()
    ensures VirtMemmap(Mrom).End() == VirtMemmap(Sram).base
    ensures VirtMemmap(Sram).End() <= VirtMemmap(Uart0).base
    ensures VirtMemmap(Uart0).End() <= VirtMemmap(Dram).base
  {
  }

  /** Every region other than DRAM lies wholly below the DRAM base. */
  lemma FixedRegionsBelowDram(id: RegionId, addr: nat)
    requires id != Dram
    requires VirtMemmap(id).Contains(addr)
    ensures addr < VirtMemmap(Dram).base
  {
  }

  /** The 40-byte reset-vector blob, placed at the MROM base, lies inside MROM. */
  lemma ResetVecFitsMrom(is32: bool, startAddr: bv64, fdtLoadAddr: bv32, k: nat)
    requires k < |ResetVecBlob(is32, startAddr, fdtLoadAddr)|
    ensures VirtMemmap(Mrom).Contains(VirtMemmap(Mrom).base + k)
  {
  }
}
