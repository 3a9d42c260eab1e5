/**
 * Concrete call sequences on the MCB, followed step by step through
 * _ralloc (heap.c:74-123), _rfree (heap.c:140-196) and _kinit
 * (heap.c:238-248). Each trace holds under either midpoint rule: every
 * midpoint it meets is either 0 or already records its half.
 */
module Traces {
  import opened Layout
  import opened Entry
  import opened Pow2
  import opened BuddyTree
  import opened Alloc
  import opened Dealloc
  import opened Init
  import opened RoundTrip

  /**
   * A search that succeeds within the first h0 slots leaves the same MCB and
   * slot on every larger window, as long as each power-of-two slot from h0
   * up already records its own free half: on the way back up each midpoint
   * write either is skipped or rewrites the value already there.
   */
  lemma {:induction false} ClimbLadder(rule: MidpointRule, t: seq<int>, size: int, h0: int, n: int, u: seq<int>, s: int)
    requires |t| == McbTotal && IsPow2(h0) && IsPow2(n) && h0 <= n <= McbTotal
    requires MinSize <= size <= 32 * h0
    requires Search(rule, t, size, 0, h0) == Placed(u, Some(s))
    requires forall j :: h0 <= j < McbTotal && IsPow2(j) ==> u[j] == 32 * j
    ensures Search(rule, t, size, 0, n) == Placed(u, Some(s))
    decreases n
  {
    if n > h0 {
      Below(h0, n);
      var h := Halve(n);
      ClimbLadder(rule, t, size, h0, h, u, s);
      assert u[h] == 32 * h;
      ClimbStep(rule, t, size, n, h, u, s);
    }
  }

  /** One level of the climb: the midpoint already records the half, so the grant passes up unchanged. */
  lemma ClimbStep(rule: MidpointRule, t: seq<int>, size: int, n: int, h: int, u: seq<int>, s: int)
    requires |t| == McbTotal && n == 2 * h && h >= 1 && n <= McbTotal
    requires MinSize <= size <= 16 * n
    requires Search(rule, t, size, 0, h) == Placed(u, Some(s)) && u[h] == 16 * n
    ensures Search(rule, t, size, 0, n) == Placed(u, Some(s))
  {
    DescendLeft(rule, t, size, 0, n, h, Placed(u, Some(s)));
    assert u[h := u[h]] == u;
  }

  /** The powers of two below the number of slots. */
  lemma {:induction false} SmallPow2(i: int)
    requires IsPow2(i) && i < McbTotal
    ensures i == 1 || i == 2 || i == 4 || i == 8 || i == 16 || i == 32 || i == 64 || i == 128 || i == 256
    decreases i
  {
    if i != 1 {
      SmallPow2(i / 2);
    }
  }

  /** Only one power-of-two number of granules is the smallest block for a request. */
  lemma SmallestFit(m: int, k: int, size: int)
    requires IsPow2(m) && IsPow2(k) && 16 * m < size <= 32 * m && 16 * k < size <= 32 * k
    ensures m == k
  {
    if m < k {
      Below(m, k);
    } else if k < m {
      Below(k, m);
    }
  }

  // ---------------------------------------------------------------------
  // Two 100-byte requests on a fresh arena, freed in either order.
  // ---------------------------------------------------------------------

  /** A 100-byte request on a fresh arena takes slot 0 as a 128-byte block. */
  lemma FirstHundred(rule: MidpointRule)
    ensures Search(rule, InitTable(), 100, 0, McbTotal) == Placed(Ladder(4, McbTotal, 129), Some(0))
  {
    TotalIsPow2();
    var m := AllocFromFresh(rule, 100, McbTotal);
    assert IsPow2(4);
    SmallestFit(m, 4, 100);
  }

  /** The second takes its buddy at slot 4: the left window of 4 slots is occupied, the right one free. */
  lemma SecondHundred(rule: MidpointRule)
    ensures Search(rule, Ladder(4, McbTotal, 129), 100, 0, McbTotal) == Placed(Ladder(4, McbTotal, 129)[4 := 129], Some(4))
  {
    var t := Ladder(4, McbTotal, 129);
    assert IsPow2(8) && t[4] == 128;
    SecondQuarter(rule, t);
    TotalIsPow2();
    ClimbLadder(rule, t, 100, 8, McbTotal, t[4 := 129], 4);
  }

  /** Slot 0 occupied and a free 128-byte block at slot 4: 100 B takes slot 4. */
  lemma SecondQuarter(rule: MidpointRule, t: seq<int>)
    requires |t| == McbTotal && Occupied(t[0]) && t[4] == 128
    ensures Search(rule, t, 100, 0, 8) == Placed(t[4 := 129], Some(4))
  {
    SearchTakes(rule, t, 100, 0, 4);
    SearchTakes(rule, t, 100, 4, 4);
    DescendRight(rule, t, 100, 0, 8, 4);
  }

  /** Clearing the right buddy and merging into slot 0 gives the ladder of free halves from slot 8 up. */
  lemma HundredParent()
    ensures Ladder(4, McbTotal, 129)[4 := 129][4 := 0][0 := 256] == Ladder(8, McbTotal, 256)
  {
    var u := Ladder(4, McbTotal, 129)[4 := 129][4 := 0][0 := 256];
    var v := Ladder(8, McbTotal, 256);
    forall i | 0 <= i < McbTotal
      ensures u[i] == v[i]
    {
      if i != 0 && i != 4 && IsPow2(i) && 4 <= i < 8 {
        SmallPow2(i);
      }
    }
  }

  /** The MCB after the two 100-byte requests: 128-byte blocks at slots 0 and 4, both occupied. */
  function HundredPair(): (t: seq<int>)
    ensures |t| == McbTotal
  {
    Ladder(4, McbTotal, 129)[4 := 129]
  }

  /** Freeing the pair, slot 0 first: it stops at once, and slot 4 then merges with it and on up to the whole arena. */
  lemma HundredPairFreed()
    ensures BlockStart(HundredPair()[0], 0) && BlockStart(HundredPair()[4], 4)
            && BlockStart(RFree(HundredPair(), 0).table[4], 4)
            && BlockStart(RFree(HundredPair(), 4).table[0], 0)
            && RFree(RFree(HundredPair(), 0).table, 4) == Freed(InitTable(), 0)
            && RFree(RFree(HundredPair(), 4).table, 0) == Freed(InitTable(), 0)
  {
    var t := HundredPair();
    assert t[0] == 129 && t[4] == 129;
    LeftBuddyFirst(t, 0, 4, 128, 0);
    FreeBothBuddies(t, 0, 4);
    HundredParent();
    BlockAtZero(8, 256);
    FreeLadder(8, 256);
  }

  /** The two requests are granted slots 0 and 4 and leave HundredPair. */
  lemma HundredsGranted(rule: MidpointRule)
    ensures var first := Search(rule, InitTable(), 100, 0, McbTotal);
            var second := Search(rule, first.table, 100, 0, McbTotal);
            first.slot == Some(0) && second == Placed(HundredPair(), Some(4))
  {
    FirstHundred(rule);
    SecondHundred(rule);
  }

  /**
   * Two 100-byte requests on a fresh arena are granted the buddies at slots
   * 0 and 4 (0x20001000 and 0x20001080), each a 128-byte block, and freeing
   * both, in either order, gives back the fresh MCB.
   */
  lemma TwoRequestsFreed(rule: MidpointRule)
    ensures var first := Search(rule, InitTable(), 100, 0, McbTotal);
            var second := Search(rule, first.table, 100, 0, McbTotal);
            && first.slot == Some(0) && second.slot == Some(4)
            && second.table[0] == Mark(128) && second.table[4] == Mark(128)
            && BlockStart(second.table[0], 0) && BlockStart(second.table[4], 4)
            && BlockStart(RFree(second.table, 0).table[4], 4)
            && BlockStart(RFree(second.table, 4).table[0], 0)
            && RFree(RFree(second.table, 0).table, 4) == Freed(InitTable(), 0)
            && RFree(RFree(second.table, 4).table, 0) == Freed(InitTable(), 0)
  {
    HundredsGranted(rule);
    HundredPairFreed();
    assert HundredPair()[0] == 129 && HundredPair()[4] == 129;
  }

  // ---------------------------------------------------------------------
  // The scenario of the midpoint finding, reached from a fresh arena.
  // ---------------------------------------------------------------------

  /** The first 64-byte request on a fresh arena takes slot 0 as a 64-byte block. */
  lemma FirstSixtyFour(rule: MidpointRule)
    ensures Search(rule, InitTable(), 64, 0, McbTotal) == Placed(Ladder(2, McbTotal, 65), Some(0))
  {
    TotalIsPow2();
    var m := AllocFromFresh(rule, 64, McbTotal);
    assert IsPow2(2);
    SmallestFit(m, 2, 64);
  }

  /** The second takes the buddy at slot 2. */
  lemma SecondSixtyFour(rule: MidpointRule)
    ensures Search(rule, Ladder(2, McbTotal, 65), 64, 0, McbTotal) == Placed(Ladder(2, McbTotal, 65)[2 := 65], Some(2))
  {
    var t := Ladder(2, McbTotal, 65);
    assert IsPow2(2) && IsPow2(4);
    SearchTakes(rule, t, 64, 0, 2);
    SearchTakes(rule, t, 64, 2, 2);
    DescendRight(rule, t, 64, 0, 4, 2);
    TotalIsPow2();
    ClimbLadder(rule, t, 64, 4, McbTotal, t[2 := 65], 2);
  }

  /** With slots 0 and 2 both occupied, a 64-byte request finds nothing in the first four slots. */
  lemma FirstQuarterFull(rule: MidpointRule, t: seq<int>)
    requires |t| == McbTotal && Occupied(t[0]) && Occupied(t[2])
    ensures Search(rule, t, 64, 0, 4) == Placed(t, None)
  {
    SearchTakes(rule, t, 64, 0, 2);
    SearchTakes(rule, t, 64, 2, 2);
    DescendRight(rule, t, 64, 0, 4, 2);
  }

  /** Slots 0 and 2 occupied, a free 128-byte block at slot 4: 64 B takes its left half and records the right half. */
  lemma SplitAtFour(rule: MidpointRule, t: seq<int>)
    requires |t| == McbTotal && Occupied(t[0]) && Occupied(t[2]) && t[4] == 128 && t[6] == 0
    ensures Search(rule, t, 64, 0, 8) == Placed(t[4 := 65][6 := 64], Some(4))
  {
    FirstQuarterFull(rule, t);
    SearchTakes(rule, t, 64, 4, 2);
    DescendLeft(rule, t, 64, 4, 4, 2, Search(rule, t, 64, 4, 2));
    DescendRight(rule, t, 64, 0, 8, 4);
  }

  /** The third splits the free 128-byte block at slot 4, takes its left half and records the right half at slot 6. */
  lemma ThirdSixtyFour(rule: MidpointRule)
    ensures var t := Ladder(2, McbTotal, 65)[2 := 65];
            Search(rule, t, 64, 0, McbTotal) == Placed(t[4 := 65][6 := 64], Some(4))
  {
    var t := Ladder(2, McbTotal, 65)[2 := 65];
    assert IsPow2(8) && t[4] == 128 && t[6] == 0;
    SplitAtFour(rule, t);
    TotalIsPow2();
    ClimbLadder(rule, t, 64, 8, McbTotal, t[4 := 65][6 := 64], 4);
  }

  /** The fourth takes the half recorded at slot 6. */
  lemma FourthSixtyFour(rule: MidpointRule)
    ensures var t := Ladder(2, McbTotal, 65)[2 := 65][4 := 65][6 := 64];
            Search(rule, t, 64, 0, McbTotal) == Placed(t[6 := 65], Some(6))
  {
    var t := Ladder(2, McbTotal, 65)[2 := 65][4 := 65][6 := 64];
    assert IsPow2(4) && IsPow2(8);
    FirstQuarterFull(rule, t);
    SearchTakes(rule, t, 64, 4, 2);
    SearchTakes(rule, t, 64, 6, 2);
    DescendRight(rule, t, 64, 4, 4, 2);
    DescendRight(rule, t, 64, 0, 8, 4);
    TotalIsPow2();
    ClimbLadder(rule, t, 64, 8, McbTotal, t[6 := 65], 6);
  }

  /** After the four requests and the two frees the MCB is the scenario's. */
  lemma ScenarioTable()
    ensures Ladder(2, McbTotal, 65)[2 := 65][4 := 65][6 := 64][6 := 65][0 := 64][4 := 64] == Scenario()
  {
    var u := Ladder(2, McbTotal, 65)[2 := 65][4 := 65][6 := 64][6 := 65][0 := 64][4 := 64];
    var v := Scenario();
    assert IsPow2(8) && IsPow2(16) && IsPow2(32) && IsPow2(64) && IsPow2(128) && IsPow2(256);
    forall i | 0 <= i < McbTotal
      ensures u[i] == v[i]
    {
      if IsPow2(i) {
        SmallPow2(i);
      }
    }
  }

  /** The MCB after the four 64-byte requests: 64-byte blocks at slots 0, 2, 4 and 6, all occupied. */
  function FourSixtyFours(): (t: seq<int>)
    ensures |t| == McbTotal
  {
    Ladder(2, McbTotal, 65)[2 := 65][4 := 65][6 := 64][6 := 65]
  }

  /** The four requests are granted slots 0, 2, 4 and 6 in turn and leave FourSixtyFours. */
  lemma SixtyFoursGranted(rule: MidpointRule)
    ensures var a1 := Search(rule, InitTable(), 64, 0, McbTotal);
            var a2 := Search(rule, a1.table, 64, 0, McbTotal);
            var a3 := Search(rule, a2.table, 64, 0, McbTotal);
            var a4 := Search(rule, a3.table, 64, 0, McbTotal);
            && a1.slot == Some(0) && a2.slot == Some(2) && a3.slot == Some(4)
            && a4 == Placed(FourSixtyFours(), Some(6))
  {
    FirstSixtyFour(rule);
    SecondSixtyFour(rule);
    ThirdSixtyFour(rule);
    FourthSixtyFour(rule);
  }

  /** Freeing slot 0 and then slot 4: each buddy (slots 2 and 6) is still occupied, so neither merges. */
  lemma SixtyFoursFreed()
    ensures BlockStart(FourSixtyFours()[0], 0)
            && BlockStart(RFree(FourSixtyFours(), 0).table[4], 4)
            && RFree(RFree(FourSixtyFours(), 0).table, 4) == Freed(Scenario(), 4)
  {
    var t4 := FourSixtyFours();
    assert t4[0] == 65 && t4[2] == 65 && t4[4] == 65 && t4[6] == 65;
    MergeNone(t4, 0, 64, 2, 0);
    MergeNone(t4[0 := 64], 4, 64, 2, 2);
    ScenarioTable();
  }

  /**
   * Four 64-byte requests on a fresh arena are granted slots 0, 2, 4 and 6
   * (0x20001000, 0x20001040, 0x20001080, 0x200010C0); freeing the first and
   * the third, each of whose buddy is still occupied, leaves the scenario
   * MCB of the midpoint finding.
   */
  lemma ScenarioReached(rule: MidpointRule)
    ensures var a1 := Search(rule, InitTable(), 64, 0, McbTotal);
            var a2 := Search(rule, a1.table, 64, 0, McbTotal);
            var a3 := Search(rule, a2.table, 64, 0, McbTotal);
            var a4 := Search(rule, a3.table, 64, 0, McbTotal);
            && a1.slot == Some(0) && a2.slot == Some(2) && a3.slot == Some(4) && a4.slot == Some(6)
            && BlockStart(a4.table[0], 0)
            && BlockStart(RFree(a4.table, 0).table[4], 4)
            && RFree(RFree(a4.table, 0).table, 4) == Freed(Scenario(), 4)
  {
    SixtyFoursGranted(rule);
    SixtyFoursFreed();
  }

  // ---------------------------------------------------------------------
  // _kinit over a used MCB: the stale second entry is handed out again.
  // ---------------------------------------------------------------------

  /** A fresh arena's `_malloc(32)` takes slot 0 and records a free 32-byte block at slot 1. */
  lemma FreshThirtyTwo(rule: MidpointRule)
    ensures var r := Search(rule, InitTable(), 32, 0, McbTotal);
            r.slot == Some(0) && r.table[1] == 32
  {
    TotalIsPow2();
    var m := AllocFromFresh(rule, 32, McbTotal);
    SmallestFit(m, 1, 32);
  }

  /**
   * With the loop as written, an MCB whose second entry held 32 keeps it
   * through _kinit. A 64-byte request then takes slot 0 as a 64-byte block,
   * covering slots 0 and 1, and a 32-byte request is handed slot 1, inside
   * that live block.
   */
  lemma StaleEntryOverlaps(rule: MidpointRule, t: seq<int>)
    requires |t| == McbTotal && t[1] == 32
    ensures var k := InitImage(FromThirdEntry, t);
            var a := Search(rule, k, 64, 0, McbTotal);
            var b := Search(rule, a.table, 32, 0, McbTotal);
            && a.slot == Some(0) && Occupied(a.table[0]) && Span(a.table[0]) == 2
            && b.slot == Some(1)
  {
    TotalIsPow2();
    var k := InitImage(FromThirdEntry, t);
    assert k[0] == MaxSize && k[1] == 32;
    SearchTakes(rule, k, 64, 0, 2);
    var r2 := Search(rule, k, 64, 0, 2);
    assert r2 == Placed(k[0 := 65], Some(0));
    DescendLeft(rule, k, 64, 0, 4, 2, r2);
    var r4 := Search(rule, k, 64, 0, 4);
    assert r4.slot == Some(0) && r4.table[0] == 65 && r4.table[1] == 32;
    DescendLeft(rule, k, 64, 0, 8, 4, r4);
    Climb(rule, k, 64, McbTotal, 0);
    Climb(rule, k, 64, McbTotal, 1);
    var u := Search(rule, k, 64, 0, McbTotal).table;
    assert u[0] == 65 && u[1] == 32;
    SizeEntry(2);
    StaleSecond(rule, u);
  }

  /** On an MCB whose slot 0 is occupied and whose slot 1 records a free 32-byte block, 32 B goes to slot 1. */
  lemma StaleSecond(rule: MidpointRule, u: seq<int>)
    requires |u| == McbTotal && Occupied(u[0]) && u[1] == 32
    ensures Search(rule, u, 32, 0, McbTotal).slot == Some(1)
  {
    TotalIsPow2();
    SearchTakes(rule, u, 32, 0, 1);
    SearchTakes(rule, u, 32, 1, 1);
    DescendRight(rule, u, 32, 0, 2, 1);
    var r2 := Search(rule, u, 32, 0, 2);
    assert r2.slot == Some(1);
    DescendLeft(rule, u, 32, 0, 4, 2, r2);
    var r4 := Search(rule, u, 32, 0, 4);
    assert r4.slot == Some(1);
    DescendLeft(rule, u, 32, 0, 8, 4, r4);
    Climb(rule, u, 32, McbTotal, 0);
  }

  /**
   * The whole finding on _kinit: `_malloc(32)` on a fresh arena leaves 32 in
   * the second entry, _kinit as written keeps it, and after `_malloc(64)`
   * takes slot 0 (0x20001000, 64 bytes), `_malloc(32)` is granted slot 1
   * (0x20001020), inside that live block.
   */
  lemma KinitAfterMalloc(rule: MidpointRule)
    ensures var used := Search(rule, InitTable(), 32, 0, McbTotal).table;
            var k := InitImage(FromThirdEntry, used);
            var a := Search(rule, k, 64, 0, McbTotal);
            var b := Search(rule, a.table, 32, 0, McbTotal);
            && used[1] == 32
            && a.slot == Some(0) && Occupied(a.table[0]) && Span(a.table[0]) == 2
            && b.slot == Some(1)
  {
    FreshThirtyTwo(rule);
    StaleEntryOverlaps(rule, Search(rule, InitTable(), 32, 0, McbTotal).table);
  }
}
