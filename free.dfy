/**
 * Deallocation with buddy coalescing: _rfree (heap.c:134-193) as a function
 * on the MCB.
 *
 * Freeing the block whose entry is at slot s clears the occupied flag. The
 * block has k = size/32 slots and is the left buddy when s/k is even (its
 * buddy starts at s + k) and the right buddy otherwise (its buddy starts at
 * s - k). When the buddy's entry equals the cleared entry, the buddy is a
 * free block of the same size: the two are merged into one entry of twice
 * the size at the lower slot, the upper entry is zeroed, and freeing goes on
 * from the lower slot.
 */
module Dealloc {
  import opened Layout
  import opened Entry
  import opened Pow2
  import opened BuddyTree

  /** The outcome of a free: the new MCB and the slot of the block that ends up free. */
  datatype Freed = Freed(table: seq<int>, slot: int)

  /**
   * The free block at slot p could be merged further: its buddy lies in the
   * MCB and records the same size, free. The buddy of the whole arena would
   * start past the MCB (at mcb_top + 1024, a location nothing ever writes
   * and so reads 0): the root block never merges.
   */
  predicate Mergeable(u: seq<int>, p: int): (b: bool)
    requires |u| == McbTotal && 0 <= p < McbTotal && Span(u[p]) >= 1
    ensures b ==> Span(u[p]) < McbTotal
  {
    var k := Span(u[p]);
    if (p / k) % 2 == 0 then
      p + k < McbTotal && u[p + k] == u[p]
    else
      p >= k && u[p - k] == u[p]
  }

  /**
   * What one merging step needs of the block at slot s: its cleared entry c
   * is 32*k for a power of two k, and the merged block of 2*k slots at the
   * lower buddy is again a block start.
   */
  lemma FreeStep(e: int, s: int)
    requires BlockStart(e, s)
    ensures var c := Unmark(e); var k := c / MinSize;
            && c == 32 * k && k >= 1 && IsPow2(k) && Span(c) == k && BlockStart(c, s)
            && ((s / k) % 2 == 0 && s + k < McbTotal ==>
                  s + 2 * k <= McbTotal && BlockStart(c + c, s) && Span(c + c) == 2 * k)
            && ((s / k) % 2 == 1 ==>
                  s >= k && BlockStart(c + c, s - k) && Span(c + c) == 2 * k)
  {
    var c := Unmark(e);
    var k := c / MinSize;
    Positive(k);
    assert c == 32 * k;
    SizeEntry(k);
    SizeEntry(2 * k);
    assert c + c == 32 * (2 * k);
    Double(k);
    EvenQuotient(s, k);
    if (s / k) % 2 == 0 && s + k < McbTotal {
      TotalIsPow2();
      Below(k, McbTotal);
      Divides(2 * k, McbTotal);
      AlignedFits(s, 2 * k, McbTotal);
    }
    if (s / k) % 2 == 1 {
      OddQuotientBound(s, k);
    }
  }

  /** One round of _rfree: stop, or merge with the buddy and go on from the merged block. */
  datatype Round = Stop | Merge(table: seq<int>, slot: int)

  /**
   * One round of _rfree on the entry at slot s (heap.c:145-191): clear the
   * flag, find the buddy from the parity of s/k, and merge when the buddy's
   * entry equals the cleared entry. A merge yields a block start of twice
   * the size at the lower buddy that holds the freed block and differs from
   * the old MCB only inside itself; a stop leaves a block that cannot merge.
   */
  function Coalesce(t: seq<int>, s: int): (m: Round)
    requires |t| == McbTotal && 0 <= s < McbTotal && BlockStart(t[s], s)
    ensures BlockStart(Unmark(t[s]), s) && Span(Unmark(t[s])) == Span(t[s])
    ensures m.Stop? ==> !Mergeable(t[s := Unmark(t[s])], s)
    ensures m.Merge? ==>
              && |m.table| == |t| && 0 <= m.slot <= s && BlockStart(m.table[m.slot], m.slot)
              && Span(m.table[m.slot]) == 2 * Span(t[s])
              && s + Span(t[s]) <= m.slot + Span(m.table[m.slot])
              && forall i :: 0 <= i < |t| && !(m.slot <= i < m.slot + Span(m.table[m.slot])) ==> m.table[i] == t[i]
  {
    FreeStep(t[s], s);
    var c := Unmark(t[s]);
    var k := c / MinSize;
    var u := t[s := c];
    if (s / k) % 2 == 0 then
      if s + k < McbTotal && u[s + k] == c then Merge(u[s + k := 0][s := c + c], s) else Stop
    else
      if u[s - k] == c then Merge(u[s := 0][s - k := c + c], s - k) else Stop
  }

  /**
   * _rfree on the entry at slot s: rounds of Coalesce until one stops. The
   * result is the MCB after all merges and the slot of the block that ends
   * up free. That block holds the freed block and is at least as large,
   * nothing outside it changes, and it cannot be merged further.
   */
  function RFree(t: seq<int>, s: int): (r: Freed)
    requires |t| == McbTotal && 0 <= s < McbTotal && BlockStart(t[s], s)
    ensures |r.table| == |t| && 0 <= r.slot <= s
    ensures BlockStart(r.table[r.slot], r.slot) && !Occupied(r.table[r.slot])
    ensures Span(r.table[r.slot]) >= Span(t[s])
    ensures s + Span(t[s]) <= r.slot + Span(r.table[r.slot])
    ensures forall i :: 0 <= i < |t| && !(r.slot <= i < r.slot + Span(r.table[r.slot])) ==> r.table[i] == t[i]
    ensures !Mergeable(r.table, r.slot)
    decreases McbTotal - Span(t[s])
  {
    match Coalesce(t, s)
    case Stop => Freed(t[s := Unmark(t[s])], s)
    case Merge(v, p) => RFree(v, p)
  }

  /**
   * The quantities one round of _rfree computes for the entry at slot s:
   * the cleared entry c, its k granules and c/16 = 2*k, the number of MCB
   * bytes the block spans. The quotient of the entry's MCB offset 2*s by
   * 2*k is the block's index among blocks of its size; its parity tells
   * which buddy the block is.
   */
  lemma RoundTerms(t: seq<int>, s: int) returns (c: int, k: int)
    requires |t| == McbTotal && 0 <= s < McbTotal && BlockStart(t[s], s)
    ensures c == Unmark(t[s]) && c == 32 * k && k >= 1 && c / 16 == 2 * k && s + k <= McbTotal
  {
    c := Unmark(t[s]);
    k := c / MinSize;
    FreeStep(t[s], s);
    DivModUnique(c, 16, 2 * k, 0);
  }

  /** A block with an odd index is the right buddy: its left buddy starts inside the MCB. */
  lemma RightBuddy(t: seq<int>, s: int, c: int, k: int, q: int)
    requires |t| == McbTotal && 0 <= s < McbTotal && BlockStart(t[s], s)
    requires c == Unmark(t[s]) && c == 32 * k && s / k == q && q % 2 == 1
    ensures s >= k
  {
    DivModUnique(c, MinSize, k, 0);
    FreeStep(t[s], s);
  }

  /** The code's index (2*s)/(2*k) is the block's index s/k, and k is the entry's number of granules. */
  lemma Quotients(t: seq<int>, s: int, c: int, k: int, q: int)
    requires |t| == McbTotal && 0 <= s < McbTotal && BlockStart(t[s], s)
    requires c == Unmark(t[s]) && c == 32 * k && (2 * s) / (2 * k) == q
    ensures k >= 1 && k == c / MinSize && s / k == q
  {
    DivModUnique(c, MinSize, k, 0);
    ScaledQuotient(s, k);
  }

  /**
   * A round that merges with the right buddy hands the rest of the free on
   * to the merged block, a block start of twice the size.
   */
  lemma MergeRight(t: seq<int>, s: int, c: int, k: int, q: int)
    requires |t| == McbTotal && 0 <= s < McbTotal && BlockStart(t[s], s)
    requires c == Unmark(t[s]) && c == 32 * k && s / k == q
    requires q % 2 == 0 && s + k < McbTotal && t[s := c][s + k] == c
    ensures BlockStart(c + c, s) && Span(c + c) > Span(t[s])
    ensures RFree(t, s) == RFree(t[s := c][s + k := 0][s := c + c], s)
  {
    DivModUnique(c, MinSize, k, 0);
    FreeStep(t[s], s);
    Rounds(t, s, c, k);
  }

  /**
   * A round that merges with the left buddy hands the rest of the free on
   * to the merged block, a block start of twice the size.
   */
  lemma MergeLeft(t: seq<int>, s: int, c: int, k: int, q: int)
    requires |t| == McbTotal && 0 <= s < McbTotal && BlockStart(t[s], s)
    requires c == Unmark(t[s]) && c == 32 * k && s / k == q
    requires q % 2 == 1 && s >= k && t[s := c][s - k] == c
    ensures BlockStart(c + c, s - k) && Span(c + c) > Span(t[s])
    ensures RFree(t, s) == RFree(t[s := c][s := 0][s - k := c + c], s - k)
  {
    DivModUnique(c, MinSize, k, 0);
    FreeStep(t[s], s);
    Rounds(t, s, c, k);
  }

  /** A round whose buddy is not a free block of the same size ends the free. */
  lemma MergeNone(t: seq<int>, s: int, c: int, k: int, q: int)
    requires |t| == McbTotal && 0 <= s < McbTotal && BlockStart(t[s], s)
    requires c == Unmark(t[s]) && c == 32 * k && s / k == q
    requires q % 2 == 0 ==> s + k >= McbTotal || t[s := c][s + k] != c
    requires q % 2 == 1 ==> s < k || t[s := c][s - k] != c
    ensures RFree(t, s) == Freed(t[s := c], s)
  {
    DivModUnique(c, MinSize, k, 0);
    Rounds(t, s, c, k);
  }

  /** Clearing the occupied flag of a block keeps the MCB well formed. */
  lemma ClearKeepsTree(t: seq<int>, s: int)
    requires WellFormed(t) && 0 <= s < McbTotal && t[s] != 0
    ensures WellFormed(t[s := Unmark(t[s])])
  {
    TotalIsPow2();
    LeafAt(t, 0, McbTotal, s);
    var k := Span(t[s]);
    var u := t[s := Unmark(t[s])];
    assert Leaf(u, s, k);
    Replace(t, u, 0, McbTotal, s, k);
  }

  /**
   * Merging two free buddies of k slots, at lo and lo + k, into one free
   * block of 2*k slots at lo keeps the MCB well formed.
   */
  lemma MergeKeepsTree(u: seq<int>, lo: int, k: int, c: int)
    requires WellFormed(u) && IsPow2(k) && 0 <= lo && lo + 2 * k <= McbTotal && lo % (2 * k) == 0
    requires c == 32 * k && u[lo] == c && u[lo + k] == c
    ensures WellFormed(u[lo + k := 0][lo := c + c])
  {
    TotalIsPow2();
    Positive(k);
    SizeEntry(k);
    BuddiesAreLeaves(u, lo, k, c);
    Double(k);
    Below(k, McbTotal);
    NodeAt(u, 0, McbTotal, lo, 2 * k, lo);
    var v := u[lo + k := 0][lo := c + c];
    MergedLeaf(u, lo, k, c);
    Replace(u, v, 0, McbTotal, lo, 2 * k);
  }

  /** Two non-zero entries of k granules at lo and lo + k of a well-formed MCB are both single blocks. */
  lemma BuddiesAreLeaves(u: seq<int>, lo: int, k: int, c: int)
    requires WellFormed(u) && k >= 1 && 0 <= lo && lo + 2 * k <= McbTotal
    requires c == 32 * k && u[lo] == c && u[lo + k] == c
    ensures Leaf(u, lo, k) && Leaf(u, lo + k, k)
  {
    TotalIsPow2();
    SizeEntry(k);
    LeafAt(u, 0, McbTotal, lo);
    LeafAt(u, 0, McbTotal, lo + k);
  }

  /** Two adjacent single blocks of k granules rewritten as one entry of 2*k granules form a single block. */
  lemma MergedLeaf(u: seq<int>, lo: int, k: int, c: int)
    requires |u| == McbTotal && k >= 1 && 0 <= lo && lo + 2 * k <= McbTotal
    requires c == 32 * k && Leaf(u, lo, k) && Leaf(u, lo + k, k)
    ensures Leaf(u[lo + k := 0][lo := c + c], lo, 2 * k)
  {
  }

  /** One round of _rfree keeps a well-formed MCB well formed. */
  lemma CoalesceKeepsTree(t: seq<int>, s: int)
    requires WellFormed(t) && 0 <= s < McbTotal && t[s] != 0 && BlockStart(t[s], s)
    ensures WellFormed(t[s := Unmark(t[s])])
    ensures Coalesce(t, s).Merge? ==> WellFormed(Coalesce(t, s).table)
  {
    var c := Unmark(t[s]);
    var k := c / MinSize;
    ClearKeepsTree(t, s);
    Rounds(t, s, c, k);
    RightMergeKeepsTree(t, s, c, k);
    LeftMergeKeepsTree(t, s, c, k);
  }

  /**
   * The three outcomes of a round, with c the cleared entry and k its number
   * of granules: merge with the right buddy, merge with the left buddy, or stop.
   */
  lemma Rounds(t: seq<int>, s: int, c: int, k: int)
    requires |t| == McbTotal && 0 <= s < McbTotal && BlockStart(t[s], s)
    requires c == Unmark(t[s]) && k == c / MinSize
    ensures k >= 1
    ensures (s / k) % 2 == 0 && s + k < McbTotal && t[s := c][s + k] == c ==>
              Coalesce(t, s) == Merge(t[s := c][s + k := 0][s := c + c], s)
    ensures (s / k) % 2 == 1 && s >= k && t[s := c][s - k] == c ==>
              Coalesce(t, s) == Merge(t[s := c][s := 0][s - k := c + c], s - k)
    ensures Coalesce(t, s).Merge? ==>
              || ((s / k) % 2 == 0 && s + k < McbTotal && t[s := c][s + k] == c)
              || ((s / k) % 2 == 1 && s >= k && t[s := c][s - k] == c)
  {
    FreeStep(t[s], s);
    var u := t[s := c];
    if (s / k) % 2 == 0 {
      if s + k < McbTotal && u[s + k] == c {
        assert Coalesce(t, s) == Merge(u[s + k := 0][s := c + c], s);
      } else {
        assert Coalesce(t, s) == Stop;
      }
    } else {
      if u[s - k] == c {
        assert Coalesce(t, s) == Merge(u[s := 0][s - k := c + c], s - k);
      } else {
        assert Coalesce(t, s) == Stop;
      }
    }
  }

  /** Merging with the right buddy keeps a well-formed MCB well formed. */
  lemma RightMergeKeepsTree(t: seq<int>, s: int, c: int, k: int)
    requires WellFormed(t) && 0 <= s < McbTotal && BlockStart(t[s], s)
    requires c == Unmark(t[s]) && k == c / MinSize
    ensures (s / k) % 2 == 0 && s + k < McbTotal && t[s := c][s + k] == c ==>
              WellFormed(t[s := c][s + k := 0][s := c + c])
  {
    if (s / k) % 2 == 0 && s + k < McbTotal && t[s := c][s + k] == c {
      FreeStep(t[s], s);
      ClearKeepsTree(t, s);
      MergeKeepsTree(t[s := c], s, k, c);
    }
  }

  /** Merging with the left buddy keeps a well-formed MCB well formed. */
  lemma LeftMergeKeepsTree(t: seq<int>, s: int, c: int, k: int)
    requires WellFormed(t) && 0 <= s < McbTotal && BlockStart(t[s], s)
    requires c == Unmark(t[s]) && k == c / MinSize
    ensures (s / k) % 2 == 1 && s >= k && t[s := c][s - k] == c ==>
              WellFormed(t[s := c][s := 0][s - k := c + c])
  {
    if (s / k) % 2 == 1 && s >= k && t[s := c][s - k] == c {
      FreeStep(t[s], s);
      ClearKeepsTree(t, s);
      var lo := s - k;
      assert lo + k == s;
      MergeKeepsTree(t[s := c], lo, k, c);
    }
  }

  /**
   * Freeing the block at slot s leaves every other allocated block alone:
   * a round only absorbs a buddy whose entry equals the cleared (free)
   * entry, so no occupied entry but the freed one is ever written.
   */
  lemma {:induction false} RFreeKeepsOccupied(t: seq<int>, s: int)
    requires |t| == McbTotal && 0 <= s < McbTotal && BlockStart(t[s], s)
    ensures forall i :: 0 <= i < McbTotal && i != s && Occupied(t[i]) ==> RFree(t, s).table[i] == t[i]
    decreases McbTotal - Span(t[s])
  {
    var c := Unmark(t[s]);
    var k := c / MinSize;
    Rounds(t, s, c, k);
    match Coalesce(t, s)
    case Stop =>
    case Merge(v, p) =>
      assert forall i :: 0 <= i < McbTotal && i != s && Occupied(t[i]) ==> i != p && v[i] == t[i];
      RFreeKeepsOccupied(v, p);
  }

  /** The free block r ends on covers the n slots from lo. */
  predicate Covers(r: Freed, lo: int, n: int)
    requires 0 <= r.slot < |r.table|
  {
    r.slot <= lo && lo + n <= r.slot + Span(r.table[r.slot]) && !Occupied(r.table[r.slot])
  }

  /**
   * Buddy symmetry: two allocated buddies of k slots at lo and lo + k (lo
   * aligned on 2k) freed one after the other, in either order, leave the same
   * MCB, and the block that ends up free covers both. The first free stops
   * at once, its buddy still being occupied; the second merges the two into
   * their parent of 2k slots at lo and goes on freeing from there.
   */
  lemma FreeBothBuddies(t: seq<int>, lo: int, k: int)
    requires |t| == McbTotal && 0 <= lo && k >= 1 && lo + 2 * k <= McbTotal && lo % (2 * k) == 0
    requires BlockStart(t[lo], lo) && Span(t[lo]) == k && Occupied(t[lo]) && t[lo + k] == t[lo]
    ensures BlockStart(t[lo + k], lo + k)
            && BlockStart(RFree(t, lo).table[lo + k], lo + k)
            && BlockStart(RFree(t, lo + k).table[lo], lo)
            && RFree(RFree(t, lo).table, lo + k) == RFree(RFree(t, lo + k).table, lo)
            && Covers(RFree(RFree(t, lo).table, lo + k), lo, 2 * k)
  {
    var c, j := BuddyTerms(t, lo, k);
    LeftBuddyFirst(t, lo, k, c, j);
    RightBuddyFirst(t, lo, k, c, j);
    ParentCovers(t[lo + k := 0][lo := c + c], lo, k, c);
  }

  /** Freeing the merged parent of 2k slots at lo ends on a free block that covers it. */
  lemma ParentCovers(u: seq<int>, lo: int, k: int, c: int)
    requires |u| == McbTotal && 0 <= lo < McbTotal && u[lo] == c + c
    requires BlockStart(c + c, lo) && Span(c + c) == 2 * k
    ensures Covers(RFree(u, lo), lo, 2 * k)
  {
  }

  /** The quantities of two equal buddies at lo and lo + k: lo is block 2j and lo + k block 2j + 1 of size k. */
  lemma BuddyTerms(t: seq<int>, lo: int, k: int) returns (c: int, j: int)
    requires |t| == McbTotal && 0 <= lo && k >= 1 && lo + 2 * k <= McbTotal && lo % (2 * k) == 0
    requires BlockStart(t[lo], lo) && Span(t[lo]) == k && Occupied(t[lo]) && t[lo + k] == t[lo]
    ensures c == Unmark(t[lo]) && c == 32 * k && !Occupied(c)
    ensures lo / k == 2 * j && (lo + k) / k == 2 * j + 1
    ensures BlockStart(t[lo + k], lo + k) && BlockStart(c + c, lo) && Span(c + c) == 2 * k
  {
    c := Unmark(t[lo]);
    j := BuddyIndices(lo, k);
    FreeStep(t[lo], lo);
  }

  /** Block indices of two buddies of k slots at lo and lo + k, lo aligned on 2k. */
  lemma BuddyIndices(lo: int, k: int) returns (j: int)
    requires 0 <= lo && k >= 1 && lo % (2 * k) == 0
    ensures lo / k == 2 * j && (lo + k) / k == 2 * j + 1 && (lo + k) % k == 0
  {
    j := lo / (2 * k);
    assert lo == (2 * k) * j;
    DivModUnique(lo, k, 2 * j, 0);
    DivModUnique(lo + k, k, 2 * j + 1, 0);
  }

  /** Freeing lo first stops at once; freeing lo + k then merges into lo. */
  lemma LeftBuddyFirst(t: seq<int>, lo: int, k: int, c: int, j: int)
    requires |t| == McbTotal && 0 <= lo && k >= 1 && lo + 2 * k <= McbTotal
    requires BlockStart(t[lo], lo) && Occupied(t[lo]) && t[lo + k] == t[lo]
    requires c == Unmark(t[lo]) && c == 32 * k && !Occupied(c)
    requires lo / k == 2 * j && (lo + k) / k == 2 * j + 1
    requires BlockStart(t[lo + k], lo + k) && BlockStart(c + c, lo)
    ensures RFree(t, lo) == Freed(t[lo := c], lo)
    ensures RFree(t[lo := c], lo + k) == RFree(t[lo + k := 0][lo := c + c], lo)
  {
    MergeNone(t, lo, c, k, 2 * j);
    IntoLeftBuddy(t[lo := c], lo, k, c, j);
    SameParent(t, lo, k, c);
  }

  /** With a free entry c at lo, freeing its equal buddy at lo + k merges the two at lo. */
  lemma IntoLeftBuddy(t1: seq<int>, lo: int, k: int, c: int, j: int)
    requires |t1| == McbTotal && 0 <= lo && k >= 1 && lo + 2 * k <= McbTotal
    requires t1[lo] == c && c == Unmark(t1[lo + k]) && c == 32 * k
    requires (lo + k) / k == 2 * j + 1
    requires BlockStart(t1[lo + k], lo + k) && BlockStart(c + c, lo)
    ensures RFree(t1, lo + k) == RFree(t1[lo + k := c][lo + k := 0][lo := c + c], lo)
  {
    var s := lo + k;
    assert s - k == lo;
    MergeLeft(t1, s, c, k, 2 * j + 1);
  }

  /** Freeing lo + k first stops at once; freeing lo then merges with it. */
  lemma RightBuddyFirst(t: seq<int>, lo: int, k: int, c: int, j: int)
    requires |t| == McbTotal && 0 <= lo && k >= 1 && lo + 2 * k <= McbTotal
    requires BlockStart(t[lo], lo) && Occupied(t[lo]) && t[lo + k] == t[lo]
    requires c == Unmark(t[lo]) && c == 32 * k && !Occupied(c)
    requires lo / k == 2 * j && (lo + k) / k == 2 * j + 1
    requires BlockStart(t[lo + k], lo + k) && BlockStart(c + c, lo)
    ensures RFree(t, lo + k) == Freed(t[lo + k := c], lo + k)
    ensures RFree(t[lo + k := c], lo) == RFree(t[lo + k := 0][lo := c + c], lo)
  {
    MergeNone(t, lo + k, c, k, 2 * j + 1);
    MergeRight(t[lo + k := c], lo, c, k, 2 * j);
    SameParent(t, lo, k, c);
  }

  /** Both orders of clearing and merging two buddies write the same MCB. */
  lemma SameParent(t: seq<int>, lo: int, k: int, c: int)
    requires 0 <= lo && k >= 1 && lo + k < |t|
    ensures t[lo := c][lo + k := c][lo + k := 0][lo := c + c] == t[lo + k := 0][lo := c + c]
    ensures t[lo + k := c][lo := c][lo + k := 0][lo := c + c] == t[lo + k := 0][lo := c + c]
  {
  }

  /** _rfree keeps a well-formed MCB well formed. */
  lemma {:induction false} RFreeKeepsTree(t: seq<int>, s: int)
    requires WellFormed(t) && 0 <= s < McbTotal && t[s] != 0
    ensures BlockStart(t[s], s) && WellFormed(RFree(t, s).table)
    decreases McbTotal - Span(t[s])
  {
    EntryIsBlockStart(t, s);
    CoalesceKeepsTree(t, s);
    match Coalesce(t, s)
    case Stop =>
    case Merge(v, p) =>
      RFreeKeepsTree(v, p);
  }
}
