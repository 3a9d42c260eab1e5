/**
 * One MCB entry: the size in bytes of the block that starts at that slot,
 * with the low bit as the "occupied" flag (heap.c:111, heap.c:115,
 * heap.c:149-160). Block sizes are multiples of 32, so the low bit is free
 * for the flag.
 */
module Entry {
  import opened Layout
  import opened Pow2

  /** `e | 0x01`: set the occupied flag, keep the size. */
  function Mark(e: int): (r: int)
    ensures Occupied(r) && Unmark(r) == Unmark(e)
  {
    if e % 2 == 0 then e + 1 else e
  }

  /** `e & ~1`: clear the occupied flag, keep the size. */
  function Unmark(e: int): (r: int)
    ensures !Occupied(r) && 0 <= e - r <= 1
  {
    e - e % 2
  }

  /** The low bit of the entry: the block starting here is allocated. */
  predicate Occupied(e: int)
  {
    e % 2 != 0
  }

  /** The number of slots covered by the block whose entry is e. */
  function Span(e: int): int
  {
    Unmark(e) / MinSize
  }

  /** The encoding round-trips: a size survives marking and unmarking, and the flag reads back. */
  lemma CodecRoundTrip(size: int, e: int)
    requires size % 2 == 0
    ensures Unmark(Mark(size)) == size && Occupied(Mark(size))
    ensures Unmark(size) == size && !Occupied(size)
    ensures Occupied(e) ==> Mark(Unmark(e)) == e
    ensures !Occupied(e) ==> Unmark(e) == e
  {
  }

  /** The entries of a block of n granules, free and occupied, and what they decode to. */
  lemma SizeEntry(n: int)
    requires n >= 1
    ensures Mark(32 * n) == 32 * n + 1
    ensures Unmark(32 * n) == 32 * n && Unmark(32 * n + 1) == 32 * n
    ensures !Occupied(32 * n) && Occupied(32 * n + 1)
    ensures Span(32 * n) == n && Span(32 * n + 1) == n
    ensures (32 * n) % MinSize == 0
  {
    DivModUnique(32 * n, 2, 16 * n, 0);
    DivModUnique(32 * n + 1, 2, 16 * n, 1);
    DivModUnique(32 * n, MinSize, n, 0);
  }

  /**
   * Entry e at slot s describes a whole block: its size is a power-of-two
   * number of granules, the block starts on a multiple of its own size and
   * ends inside the table. This is what _rfree needs of the entry it frees:
   * a zero or sub-granule size divides by zero at heap.c:163.
   */
  predicate BlockStart(e: int, s: int)
  {
    && e >= MinSize
    && Unmark(e) % MinSize == 0
    && IsPow2(Span(e))
    && 0 <= s
    && s % Span(e) == 0
    && s + Span(e) <= McbTotal
  }
}
