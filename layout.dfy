/**
 * The simulated Cortex-M SRAM map of the allocator (heap.c:12-22) and the
 * translations between SRAM addresses, array indices and MCB slots.
 *
 * The heap is 16 KB at 0x2000_1000; the Memory Control Block (MCB) is 512
 * two-byte entries at 0x2000_6800, one per 32-byte granule of the heap.
 * An MCB byte offset times 16 is the matching heap byte offset.
 */
module Layout {

  const SramBase := 0x2000_0000
  const HeapTop := 0x2000_1000   // heap_top: first heap byte
  const HeapBot := 0x2000_4FE0   // heap_bot: start of the last 32-byte granule
  const HeapEnd := 0x2000_5000   // one past the last heap byte
  const MaxSize := 0x4000        // max_size: 16 KB, the whole arena
  const MinSize := 0x20          // min_size: 32 B, one granule
  const McbTop := 0x2000_6800    // mcb_top: first MCB entry
  const McbBot := 0x2000_6BFE    // mcb_bot: last MCB entry
  const McbEnd := 0x2000_6C00    // one past the last MCB byte
  const McbEntSz := 2            // mcb_ent_sz: bytes per MCB entry
  const McbTotal := 512          // mcb_total: number of MCB entries
  const Null := 0                // the C NULL pointer, as an integer

  /** m2a: an SRAM address to its index in the simulated SRAM array. */
  function M2A(sramAddr: int): (index: int)
    ensures A2M(index) == sramAddr
  {
    sramAddr - SramBase
  }

  /** a2m: an array index back to its SRAM address. */
  function A2M(index: int): int
  {
    index + SramBase
  }

  /** The two translations are mutual inverses. */
  lemma TranslationsInverse(sramAddr: int, index: int)
    ensures A2M(M2A(sramAddr)) == sramAddr
    ensures M2A(A2M(index)) == index
  {
  }

  /** An address of an MCB entry: inside the table and on an entry boundary. */
  predicate IsMcbAddr(a: int)
  {
    McbTop <= a <= McbBot && (a - McbTop) % 2 == 0
  }

  /** The slot (entry number) of an MCB address. */
  function SlotOf(mcbAddr: int): (slot: int)
    requires IsMcbAddr(mcbAddr)
    ensures 0 <= slot < McbTotal && McbAddrOf(slot) == mcbAddr
  {
    (M2A(mcbAddr) - M2A(McbTop)) / 2
  }

  /** The MCB address of a slot. */
  function McbAddrOf(slot: int): int
  {
    McbTop + 2 * slot
  }

  /** Slots and MCB entry addresses translate into each other. */
  lemma SlotRoundTrip(slot: int)
    requires 0 <= slot < McbTotal
    ensures IsMcbAddr(McbAddrOf(slot)) && SlotOf(McbAddrOf(slot)) == slot
  {
  }

  /**
   * The number of MCB entries in the window [left, right] of entry
   * addresses (`entire / mcb_ent_sz` at heap.c:76).
   */
  function Slots(left: int, right: int): (n: int)
    requires IsMcbAddr(left) && IsMcbAddr(right) && left <= right
    ensures n >= 1 && n == SlotOf(right) - SlotOf(left) + 1 && SlotOf(left) + n <= McbTotal
  {
    (right - left + 2) / 2
  }

  /**
   * The MCB address _kfree computes for a heap address (heap.c:222): the
   * start of each 32-byte granule maps to the entry of that granule.
   */
  function McbAddrOfHeap(addr: int): (a: int)
    ensures HeapTop <= addr <= HeapBot && (addr - HeapTop) % MinSize == 0 ==>
              IsMcbAddr(a) && SlotOf(a) == (addr - HeapTop) / MinSize
  {
    McbTop + (addr - HeapTop) / 16
  }

  /** The index of a heap byte address in the heap array. */
  function HeapIndex(addr: int): int
  {
    M2A(addr) - M2A(HeapTop)
  }

  /** The heap address of the granule that MCB slot s stands for. */
  function HeapAddrOf(slot: int): (addr: int)
    requires 0 <= slot < McbTotal
    ensures HeapTop <= addr <= HeapBot && (addr - HeapTop) % MinSize == 0
    ensures McbAddrOfHeap(addr) == McbAddrOf(slot)
  {
    HeapTop + 32 * slot
  }

  /** A C `int`: the two's-complement value of the low 32 bits of x. */
  function Int32(x: int): (r: int)
    ensures -0x8000_0000 <= r < 0x8000_0000 && (r - x) % 0x1_0000_0000 == 0
  {
    var w := x % 0x1_0000_0000;
    if w >= 0x8000_0000 then w - 0x1_0000_0000 else w
  }

  /**
   * The address _ralloc returns for the block starting at MCB address `left`
   * (heap.c:116): `((left - 0x6800) << 4) + heap_top` evaluated in 32-bit
   * ints. The shift overflows, and the wrap-around is what brings the value
   * back to heap_top plus 16 times the MCB offset.
   */
  function ShiftedAddress(left: int): (addr: int)
    requires IsMcbAddr(left)
    ensures addr == HeapTop + 16 * (left - McbTop)
    ensures addr == HeapAddrOf(SlotOf(left))
  {
    Int32((left - 0x6800) * 16) + HeapTop
  }
}
