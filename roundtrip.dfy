/**
 * Allocation and free as inverses on a fresh arena: a single request
 * served from the MCB _kinit leaves, freed again, gives that MCB back.
 *
 * From the fresh MCB the search descends along the left edge down to the
 * smallest window of m slots that holds the request, marks slot 0 as an
 * occupied block of m granules, and on the way back up records every right
 * half (slots m, 2m, 4m, ..., 256) as a free block of its own size
 * (heap.c:94-116). Freeing slot 0 then merges with each of those buddies in
 * turn (heap.c:166-177) until slot 0 holds the whole arena again.
 */
module RoundTrip {
  import opened Layout
  import opened Entry
  import opened Pow2
  import opened BuddyTree
  import opened Alloc
  import opened Dealloc
  import opened Init

  /**
   * The MCB with entry e at slot 0, a free block of j granules at each
   * power-of-two slot j in [m, n), and 0 everywhere else.
   */
  function Ladder(m: int, n: int, e: int): (u: seq<int>)
    ensures |u| == McbTotal && u[0] == e
  {
    seq(McbTotal, i requires 0 <= i < McbTotal =>
      if i == 0 then e else if m <= i < n && IsPow2(i) then 32 * i else 0)
  }

  /**
   * Under either midpoint rule, a valid request that fits in a window of n
   * slots at the start of the fresh MCB is placed at slot 0 in a block of m granules, the smallest
   * power of two that holds it, and leaves the ladder of free halves above it.
   */
  lemma {:induction false} AllocFromFresh(rule: MidpointRule, size: int, n: int) returns (m: int)
    requires IsPow2(n) && n <= McbTotal && MinSize <= size <= 32 * n
    ensures IsPow2(m) && 1 <= m <= n && 16 * m < size <= 32 * m
    ensures Search(rule, InitTable(), size, 0, n) == Placed(Ladder(m, n, Mark(32 * m)), Some(0))
    decreases n
  {
    if size > 16 * n {
      FreshBase(rule, size, n);
      m := n;
    } else {
      var h := Halve(n);
      m := AllocFromFresh(rule, size, h);
      FreshStep(rule, size, n, h, m);
    }
  }

  /** The request needs the whole window: slot 0 of the fresh MCB is free and large enough. */
  lemma FreshBase(rule: MidpointRule, size: int, n: int)
    requires IsPow2(n) && n <= McbTotal && MinSize <= size <= 32 * n && 16 * n < size
    ensures Search(rule, InitTable(), size, 0, n) == Placed(Ladder(n, n, Mark(32 * n)), Some(0))
  {
    var t := InitTable();
    SearchTakes(rule, t, size, 0, n);
    assert t[0 := Mark(32 * n)] == Ladder(n, n, Mark(32 * n));
  }

  /** The left half granted slot 0; the empty midpoint entry is recorded as a free half under either rule. */
  lemma FreshStep(rule: MidpointRule, size: int, n: int, h: int, m: int)
    requires n == 2 * h && IsPow2(h) && n <= McbTotal && MinSize <= size <= 16 * n && 1 <= m <= h
    requires Search(rule, InitTable(), size, 0, h) == Placed(Ladder(m, h, Mark(32 * m)), Some(0))
    ensures Search(rule, InitTable(), size, 0, n) == Placed(Ladder(m, n, Mark(32 * m)), Some(0))
  {
    var t := InitTable();
    var first := Search(rule, t, size, 0, h);
    var e := Mark(32 * m);
    assert first.table == Ladder(m, h, e) && first.slot == Some(0);
    assert first.table[h] == 0 && RecordsHalf(rule, 0);
    DescendLeft(rule, t, size, 0, n, h, first);
    assert Search(rule, t, size, 0, n) == Placed(first.table[h := 16 * n], Some(0));
    LadderGrows(m, h, n, e);
  }

  /** Recording the free right half of h granules at slot h extends the ladder from [m, h) to [m, 2h). */
  lemma LadderGrows(m: int, h: int, n: int, e: int)
    requires IsPow2(h) && 1 <= m <= h < McbTotal && n == 2 * h
    ensures Ladder(m, h, e)[h := 16 * n] == Ladder(m, n, e)
  {
    var u := Ladder(m, h, e)[h := 16 * n];
    var v := Ladder(m, n, e);
    forall i | 0 <= i < McbTotal
      ensures u[i] == v[i]
    {
      if i != h && i != 0 && IsPow2(i) && h < i {
        Below(h, i);
      }
    }
  }

  /**
   * Freeing slot 0 of a ladder whose entry at slot 0 is a block of m
   * granules merges with every buddy above it and ends with the fresh MCB.
   */
  lemma {:induction false} FreeLadder(m: int, e: int)
    requires IsPow2(m) && m <= McbTotal && BlockStart(e, 0) && Span(e) == m
    ensures RFree(Ladder(m, McbTotal, e), 0) == Freed(InitTable(), 0)
    decreases McbTotal - m
  {
    if m == McbTotal {
      LastRound(e);
    } else {
      var d := LadderRound(m, e);
      FreeLadder(2 * m, d);
    }
  }

  /** The freed block is the whole arena: the round stops and slot 0 holds max_size, free. */
  lemma LastRound(e: int)
    requires BlockStart(e, 0) && Span(e) == McbTotal
    ensures Coalesce(Ladder(McbTotal, McbTotal, e), 0) == Stop
    ensures Ladder(McbTotal, McbTotal, e)[0 := Unmark(e)] == InitTable()
  {
    var t := Ladder(McbTotal, McbTotal, e);
    FreeStep(e, 0);
    Rounds(t, 0, Unmark(e), McbTotal);
  }

  /**
   * A round below the top: slot 0 merges with its buddy at slot m, and the
   * MCB becomes the ladder from 2m with a free block of 2m granules at slot 0.
   */
  lemma LadderRound(m: int, e: int) returns (d: int)
    requires IsPow2(m) && m < McbTotal && BlockStart(e, 0) && Span(e) == m
    ensures IsPow2(2 * m) && 2 * m <= McbTotal && BlockStart(d, 0) && Span(d) == 2 * m
    ensures Coalesce(Ladder(m, McbTotal, e), 0) == Merge(Ladder(2 * m, McbTotal, d), 0)
  {
    var t := Ladder(m, McbTotal, e);
    var c := Unmark(e);
    d := c + c;
    SlotZeroMerges(t, m, c, d);
    TotalIsPow2();
    Below(m, McbTotal);
    Double(m);
    BlockAtZero(2 * m, d);
    MergedLadder(m, e, c, d);
  }

  /** Slot 0 holds a block of m granules and its buddy at slot m records the same free size: the round merges them. */
  lemma SlotZeroMerges(t: seq<int>, m: int, c: int, d: int)
    requires |t| == McbTotal && 1 <= m < McbTotal && BlockStart(t[0], 0) && Span(t[0]) == m
    requires c == Unmark(t[0]) && t[m] == c && d == c + c
    ensures c == 32 * m
    ensures Coalesce(t, 0) == Merge(t[0 := c][m := 0][0 := d], 0)
  {
    FreeStep(t[0], 0);
    assert 0 / m == 0;
    Rounds(t, 0, c, m);
  }

  /** An entry of k granules at slot 0 describes a whole block when k is a power of two that fits. */
  lemma BlockAtZero(k: int, d: int)
    requires IsPow2(k) && k <= McbTotal && d == 32 * k
    ensures BlockStart(d, 0) && Span(d) == k
  {
    SizeEntry(k);
    ZeroMod(k);
  }

  /** One merge at slot 0 turns the ladder from m into the ladder from 2m. */
  lemma MergedLadder(m: int, e: int, c: int, d: int)
    requires IsPow2(m) && 2 * m <= McbTotal && c == 32 * m && d == c + c
    ensures Ladder(m, McbTotal, e)[0 := c][m := 0][0 := d] == Ladder(2 * m, McbTotal, d)
  {
    var u := Ladder(m, McbTotal, e)[0 := c][m := 0][0 := d];
    var v := Ladder(2 * m, McbTotal, d);
    Positive(m);
    forall i | 0 <= i < McbTotal
      ensures u[i] == v[i]
    {
      if i != m && i != 0 && IsPow2(i) && m < i {
        Below(m, i);
      }
    }
  }

  /**
   * Round trip on a fresh arena: any valid request is placed at slot 0, and
   * freeing that slot gives back the MCB _kinit leaves, the whole arena as
   * one free block.
   */
  lemma AllocFreeRoundTrip(size: int)
    requires MinSize <= size <= MaxSize
    ensures var r := Search(IfEmpty, InitTable(), size, 0, McbTotal);
            && r.slot == Some(0)
            && BlockStart(r.table[0], 0)
            && RFree(r.table, 0) == Freed(InitTable(), 0)
  {
    TotalIsPow2();
    var m := AllocFromFresh(IfEmpty, size, McbTotal);
    SizeEntry(m);
    ZeroMod(m);
    FreeLadder(m, Mark(32 * m));
  }
}
