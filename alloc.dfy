/**
 * Split-search allocation: _ralloc (heap.c:74-123) as a function on the MCB.
 *
 * The search works on a window of n slots starting at slot lo; in the source
 * the window is [left, right] in MCB addresses, with left = mcb_top + 2*lo
 * and right = left + 2*n - 2, so the source's `entire` is 2*n bytes of MCB,
 * `half` is n, `act_entire_size` is 32*n and `act_half_size` is 16*n.
 */
module Alloc {
  import opened Layout
  import opened Entry
  import opened Pow2
  import opened BuddyTree

  datatype Option<T> = None | Some(value: T)

  /** The outcome of a search: the new table and the slot of the block handed out, if any. */
  datatype Placed = Placed(table: seq<int>, slot: Option<int>)

  /**
   * When a descent whose left half succeeded writes a free half-size entry
   * at the midpoint (the start of the right half).
   */
  datatype MidpointRule =
    | IfFree   // heap.c:101: when the midpoint entry's low bit is clear
    | IfEmpty  // only when the midpoint entry is 0, i.e. the right half has no block of its own yet

  /**
   * Whether the midpoint entry e is overwritten with a free half under `rule`.
   * Neither rule writes over an occupied entry, and both write an empty one.
   */
  predicate RecordsHalf(rule: MidpointRule, e: int): (b: bool)
    ensures b ==> !Occupied(e)
    ensures e == 0 ==> b
  {
    match rule
    case IfFree => e % 2 == 0
    case IfEmpty => e == 0
  }

  /**
   * What a successful search promises about the block it hands out at slot s:
   * it lies in the window, was free and is now marked occupied; its size b is
   * a power-of-two number of granules, aligned within the window, the
   * smallest such size above half the request (and at least the request,
   * unless the request exceeds the window), and no larger than what the
   * entry recorded before.
   */
  ghost predicate Granted(t: seq<int>, u: seq<int>, s: int, size: int, lo: int, n: int)
    requires |u| == |t|
  {
    && 0 <= lo <= s < lo + n && s < |t|
    && !Occupied(t[s]) && Occupied(u[s])
    && var b := Unmark(u[s]);
    && AlignedIn(u, s, lo, n)
    && b < 2 * size
    && (size <= 32 * n ==> size <= b)
    && t[s] >= b
  }

  /**
   * _ralloc over the window of n slots at lo. A request outside
   * [min_size, max_size] fails at once (heap.c:88-90). If the request fits in
   * half the window, search the left half first and the right half only if
   * the left failed (heap.c:94-99); after a left success, record the right
   * half as a free half-size block when `rule` says so (heap.c:101-105).
   * Otherwise the window itself is the block: take it if its entry is free
   * and records at least the window's size (heap.c:111-116).
   */
  function Search(rule: MidpointRule, t: seq<int>, size: int, lo: int, n: int): (r: Placed)
    requires |t| == McbTotal && InTable(t, lo, n)
    ensures |r.table| == |t|
    ensures size < MinSize || size > MaxSize ==> r == Placed(t, None)
    ensures r.slot.None? ==> r.table == t
    ensures r.slot.Some? ==> lo <= r.slot.value < lo + n
    decreases n
  {
    var actEntireSize := 32 * n;
    var actHalfSize := 16 * n;
    if size < MinSize || size > MaxSize then
      Placed(t, None)
    else if size <= actHalfSize then
      var h := n / 2;
      var mid := lo + h;
      var left := Search(rule, t, size, lo, h);
      if left.slot.None? then
        Search(rule, t, size, mid, h)
      else if RecordsHalf(rule, left.table[mid]) then
        Placed(left.table[mid := actHalfSize], left.slot)
      else
        left
    else if !Occupied(t[lo]) && t[lo] >= actEntireSize then
      Placed(t[lo := Mark(actEntireSize)], Some(lo))
    else
      Placed(t, None)
  }

  /**
   * The number of nested _ralloc frames a request of `size` bytes opens on
   * a window of n slots: each descent halves the window (heap.c:94-99), and
   * a request outside [min_size, max_size] or above half the window ends
   * the descent. This is a separate count of the frames, stated on its own
   * recursion; no lemma ties it to the calls Search makes.
   */
  function Depth(size: int, n: int): (d: int)
    decreases n
  {
    if MinSize <= size <= MaxSize && size <= 16 * n then 1 + Depth(size, n / 2) else 1
  }

  /** On a window of at most 2^k slots the descent opens at most k + 1 frames. */
  lemma {:induction false} DepthLog(size: int, n: int, k: nat)
    requires n <= Exp2(k)
    ensures 1 <= Depth(size, n) <= k + 1
    decreases k
  {
    if MinSize <= size <= MaxSize && size <= 16 * n {
      assert k >= 1;
      DepthLog(size, n / 2, k - 1);
    }
  }

  /** On the whole MCB of 2^9 slots _ralloc nests at most 10 frames, and a 32-byte request needs all 10. */
  lemma DepthBound(size: int)
    ensures Depth(size, McbTotal) <= 10
    ensures Depth(MinSize, McbTotal) == 10
  {
    assert Exp2(9) == McbTotal;
    DepthLog(size, McbTotal, 9);
  }

  /**
   * A search writes only inside its window and never overwrites an occupied
   * entry: the midpoint write needs the entry's flag clear, and the base
   * case takes only a free entry.
   */
  lemma {:induction false} SearchFrame(rule: MidpointRule, t: seq<int>, size: int, lo: int, n: int)
    requires |t| == McbTotal && InTable(t, lo, n)
    ensures var r := Search(rule, t, size, lo, n);
            && (forall i :: 0 <= i < |t| && !(lo <= i < lo + n) ==> r.table[i] == t[i])
            && (forall i :: 0 <= i < |t| && Occupied(t[i]) ==> r.table[i] == t[i])
    decreases n
  {
    if MinSize <= size <= MaxSize && size <= 16 * n {
      var h := n / 2;
      SearchFrame(rule, t, size, lo, h);
      var left := Search(rule, t, size, lo, h);
      if left.slot.None? {
        DescendRight(rule, t, size, lo, n, h);
        SearchFrame(rule, t, size, lo + h, h);
      } else {
        DescendLeft(rule, t, size, lo, n, h, left);
        RecordKeepsOccupied(rule, left.table, t, lo + h, 16 * n);
      }
    } else if MinSize <= size <= MaxSize {
      SearchTakes(rule, t, size, lo, n);
    }
  }

  /**
   * The midpoint write at slot m changes nothing outside m and never
   * overwrites an occupied entry.
   */
  lemma RecordKeepsOccupied(rule: MidpointRule, u: seq<int>, t: seq<int>, m: int, v: int)
    requires |u| == |t| && 0 <= m < |u|
    requires forall i :: 0 <= i < |t| && Occupied(t[i]) ==> u[i] == t[i]
    ensures var w := if RecordsHalf(rule, u[m]) then u[m := v] else u;
            forall i :: 0 <= i < |t| && (Occupied(t[i]) || i != m) ==> w[i] == u[i] && (Occupied(t[i]) ==> w[i] == t[i])
  {
  }

  /** A search whose request fits in half the window and fails on the left half goes on with the right half. */
  lemma DescendRight(rule: MidpointRule, t: seq<int>, size: int, lo: int, n: int, h: int)
    requires |t| == McbTotal && InTable(t, lo, n) && h == n / 2
    requires MinSize <= size <= MaxSize && size <= 16 * n
    requires Search(rule, t, size, lo, h).slot.None?
    ensures Search(rule, t, size, lo, n) == Search(rule, t, size, lo + h, h)
  {
    assert n / 2 == h && !(size < MinSize || size > MaxSize) && size <= 16 * n;
  }

  /**
   * A search whose request fits in half the window and succeeds on the left
   * half keeps that result, recording the right half as a free block of
   * half the window when the rule allows it.
   */
  lemma DescendLeft(rule: MidpointRule, t: seq<int>, size: int, lo: int, n: int, h: int, first: Placed)
    requires |t| == McbTotal && InTable(t, lo, n) && h == n / 2
    requires MinSize <= size <= MaxSize && size <= 16 * n
    requires first == Search(rule, t, size, lo, h) && first.slot.Some?
    ensures RecordsHalf(rule, first.table[lo + h]) ==> Search(rule, t, size, lo, n) == Placed(first.table[lo + h := 16 * n], first.slot)
    ensures !RecordsHalf(rule, first.table[lo + h]) ==> Search(rule, t, size, lo, n) == first
  {
    assert n / 2 == h && !(size < MinSize || size > MaxSize) && size <= 16 * n;
  }

  /** A search whose request exceeds half the window: the window's own entry decides. */
  lemma SearchTakes(rule: MidpointRule, t: seq<int>, size: int, lo: int, n: int)
    requires |t| == McbTotal && InTable(t, lo, n)
    requires MinSize <= size <= MaxSize && size > 16 * n
    ensures Search(rule, t, size, lo, n) ==
              if !Occupied(t[lo]) && t[lo] >= 32 * n then Placed(t[lo := Mark(32 * n)], Some(lo))
              else Placed(t, None)
  {
    assert !(size < MinSize || size > MaxSize) && !(size <= 16 * n);
  }

  /** A successful search hands out a block as Granted describes. */
  lemma {:induction false} SearchGrants(rule: MidpointRule, t: seq<int>, size: int, lo: int, n: int)
    requires |t| == McbTotal && InTable(t, lo, n) && IsPow2(n)
    ensures var r := Search(rule, t, size, lo, n);
            r.slot.Some? ==> Granted(t, r.table, r.slot.value, size, lo, n)
    decreases n
  {
    if MinSize <= size <= MaxSize {
      if size <= 16 * n {
        var h := Halve(n);
        SearchGrants(rule, t, size, lo, h);
        SearchGrants(rule, t, size, lo + h, h);
        DescentGrants(rule, t, size, lo, n, h);
      } else {
        SearchTakes(rule, t, size, lo, n);
        if !Occupied(t[lo]) && t[lo] >= 32 * n {
          BaseGrants(t, size, lo, n);
        }
      }
    }
  }

  /** A descent hands out what a half hands out, and that is a grant within the whole window. */
  lemma DescentGrants(rule: MidpointRule, t: seq<int>, size: int, lo: int, n: int, h: int)
    requires |t| == McbTotal && InTable(t, lo, n) && n == 2 * h && IsPow2(h)
    requires MinSize <= size <= MaxSize && size <= 16 * n
    requires var r := Search(rule, t, size, lo, h);
             r.slot.Some? ==> Granted(t, r.table, r.slot.value, size, lo, h)
    requires var r := Search(rule, t, size, lo + h, h);
             r.slot.Some? ==> Granted(t, r.table, r.slot.value, size, lo + h, h)
    ensures var r := Search(rule, t, size, lo, n);
            r.slot.Some? ==> Granted(t, r.table, r.slot.value, size, lo, n)
  {
    var left := Search(rule, t, size, lo, h);
    if left.slot.None? {
      DescendRight(rule, t, size, lo, n, h);
      RightAligned(Search(rule, t, size, lo + h, h), lo, h);
    } else {
      DescendLeft(rule, t, size, lo, n, h, left);
      var r := Search(rule, t, size, lo, n);
      var s := left.slot.value;
      assert r.slot == left.slot && r.table[s] == left.table[s];
      GrantWidens(t, left.table, r.table, s, size, lo, h);
    }
  }

  /** A grant within the left half of a window is a grant within the window, whatever is written past the half. */
  lemma GrantWidens(t: seq<int>, u: seq<int>, v: seq<int>, s: int, size: int, lo: int, h: int)
    requires |u| == |t| == |v| && h >= 1
    requires Granted(t, u, s, size, lo, h) && v[s] == u[s]
    requires size <= 32 * h
    ensures Granted(t, v, s, size, lo, 2 * h)
  {
  }

  /** Taking a whole free window of n slots is a grant. */
  lemma BaseGrants(t: seq<int>, size: int, lo: int, n: int)
    requires |t| == McbTotal && InTable(t, lo, n) && IsPow2(n)
    requires 16 * n < size && !Occupied(t[lo]) && t[lo] >= 32 * n
    ensures Granted(t, t[lo := Mark(32 * n)], lo, size, lo, n)
  {
    SizeEntry(n);
    FreshBlock(t[lo := Mark(32 * n)], lo, n);
  }

  /** An occupied entry of n granules at the start of a window of n slots is aligned in it. */
  lemma FreshBlock(u: seq<int>, lo: int, n: int)
    requires 0 <= lo < |u| && IsPow2(n) && u[lo] == 32 * n + 1
    ensures AlignedIn(u, lo, lo, n) && Occupied(u[lo]) && Unmark(u[lo]) == 32 * n
  {
    Positive(n);
    SizeEntry(n);
    ZeroMod(n);
  }

  /** A block aligned within the right half of a window is aligned within the whole window. */
  lemma RightAligned(r: Placed, lo: int, h: int)
    requires IsPow2(h)
    requires r.slot.Some? ==> AlignedIn(r.table, r.slot.value, lo + h, h)
    ensures r.slot.Some? ==> AlignedIn(r.table, r.slot.value, lo, 2 * h)
  {
    if r.slot.Some? {
      var s := r.slot.value;
      var k := Unmark(r.table[s]) / MinSize;
      Positive(k);
      Divides(k, h);
      ModAddMultiple(s - (lo + h), h, k);
    }
  }

  /** The block recorded at slot s is a power-of-two block no larger than n and aligned within the window at lo. */
  ghost predicate AlignedIn(u: seq<int>, s: int, lo: int, n: int)
  {
    && 0 <= s < |u|
    && var k := Unmark(u[s]) / MinSize;
    && Unmark(u[s]) % MinSize == 0 && IsPow2(k) && k <= n
    && (s - lo) % k == 0
  }

  /**
   * What a search with the corrected midpoint rule does to a window that is
   * a tree or lies inside one block (Covered): the window is a tree
   * afterwards exactly when a block was handed out or it was one before;
   * inside an empty or occupied block nothing is found; inside a free block
   * something is.
   */
  ghost predicate KeepsTree(t: seq<int>, r: Placed, size: int, lo: int, n: int)
    requires InTable(t, lo, n) && |r.table| == |t|
  {
    && Tree(r.table, lo, n) == (r.slot.Some? || Tree(t, lo, n))
    && (Covered(t, lo, n) && (t[lo] == 0 || Occupied(t[lo])) ==> r.slot.None?)
    && (Covered(t, lo, n) && t[lo] != 0 && !Occupied(t[lo]) && MinSize <= size <= MaxSize ==> r.slot.Some?)
  }

  /** With the corrected midpoint rule a search keeps the buddy tree. */
  lemma {:induction false} SearchKeepsTree(t: seq<int>, size: int, lo: int, n: int)
    requires |t| == McbTotal && InTable(t, lo, n) && IsPow2(n)
    requires Tree(t, lo, n) || Covered(t, lo, n)
    ensures KeepsTree(t, Search(IfEmpty, t, size, lo, n), size, lo, n)
    decreases n
  {
    if MinSize <= size <= MaxSize && size <= 16 * n {
      var h := n / 2;
      assert n >= 2 && n == 2 * h && IsPow2(h);
      Halves(t, lo, n, h);
      SearchKeepsTree(t, size, lo, h);
      SearchKeepsTree(t, size, lo + h, h);
      if Covered(t, lo, n) {
        CoveredDescent(t, size, lo, n, h);
      } else {
        SplitDescent(t, size, lo, n, h);
      }
    } else if MinSize <= size <= MaxSize {
      BaseKeepsTree(t, size, lo, n);
    }
  }

  /** The halves of a window inside one block lie inside it; the halves of a tree that is not one block are trees. */
  lemma Halves(t: seq<int>, lo: int, n: int, h: int)
    requires InTable(t, lo, n) && h >= 1 && n == 2 * h
    ensures Covered(t, lo, n) ==> Covered(t, lo, h) && Covered(t, lo + h, h)
    ensures Tree(t, lo, n) && !Covered(t, lo, n) ==> Tree(t, lo, h) && Tree(t, lo + h, h)
  {
    assert n / 2 == h;
  }

  /** A descent inside one block, given what the searches of its halves do. */
  lemma CoveredDescent(t: seq<int>, size: int, lo: int, n: int, h: int)
    requires |t| == McbTotal && InTable(t, lo, n) && n == 2 * h
    requires MinSize <= size <= 16 * n && Covered(t, lo, n)
    requires Covered(t, lo, h) && Covered(t, lo + h, h)
    requires KeepsTree(t, Search(IfEmpty, t, size, lo, h), size, lo, h)
    requires KeepsTree(t, Search(IfEmpty, t, size, lo + h, h), size, lo + h, h)
    ensures KeepsTree(t, Search(IfEmpty, t, size, lo, n), size, lo, n)
  {
    var left := Search(IfEmpty, t, size, lo, h);
    if left.slot.Some? {
      assert t[lo] != 0 && !Occupied(t[lo]);
      CoveredFound(t, size, lo, n, h);
    } else {
      assert t[lo] == 0 || Occupied(t[lo]);
      assert t[lo + h] == 0;
      CoveredNotFound(t, size, lo, n, h);
    }
  }

  /** Inside a free block whose left half hands out a block, the split window becomes a tree. */
  lemma CoveredFound(t: seq<int>, size: int, lo: int, n: int, h: int)
    requires |t| == McbTotal && InTable(t, lo, n) && n == 2 * h
    requires MinSize <= size <= 16 * n && Covered(t, lo, n)
    requires Search(IfEmpty, t, size, lo, h).slot.Some?
    requires Tree(Search(IfEmpty, t, size, lo, h).table, lo, h)
    ensures Search(IfEmpty, t, size, lo, n).slot.Some?
    ensures Tree(Search(IfEmpty, t, size, lo, n).table, lo, n)
  {
    var left := Search(IfEmpty, t, size, lo, h);
    SearchFrame(IfEmpty, t, size, lo, h);
    assert left.table[lo + h] == 0;
    DescendLeft(IfEmpty, t, size, lo, n, h, left);
    CoveredSplit(t, left.table, size, lo, h);
  }

  /** Inside an empty or occupied block whose left half finds nothing, neither does the window. */
  lemma CoveredNotFound(t: seq<int>, size: int, lo: int, n: int, h: int)
    requires |t| == McbTotal && InTable(t, lo, n) && n == 2 * h
    requires MinSize <= size <= 16 * n
    requires Search(IfEmpty, t, size, lo, h).slot.None?
    requires Search(IfEmpty, t, size, lo + h, h).slot.None?
    ensures Search(IfEmpty, t, size, lo, n) == Placed(t, None)
  {
    DescendRight(IfEmpty, t, size, lo, n, h);
  }

  /** A descent through a split window, given what the searches of its halves do. */
  lemma SplitDescent(t: seq<int>, size: int, lo: int, n: int, h: int)
    requires |t| == McbTotal && InTable(t, lo, n) && n == 2 * h
    requires MinSize <= size <= 16 * n && !Covered(t, lo, n) && Tree(t, lo, n)
    requires KeepsTree(t, Search(IfEmpty, t, size, lo, h), size, lo, h)
    requires KeepsTree(t, Search(IfEmpty, t, size, lo + h, h), size, lo + h, h)
    ensures KeepsTree(t, Search(IfEmpty, t, size, lo, n), size, lo, n)
  {
    assert n / 2 == h && !Leaf(t, lo, n);
    assert Tree(t, lo, h) && Tree(t, lo + h, h);
    if Search(IfEmpty, t, size, lo, h).slot.None? {
      SplitRight(t, size, lo, n, h);
    } else {
      SplitLeft(t, size, lo, n, h);
    }
  }

  /** A split window whose left half finds nothing: the right half's search decides, the left half is untouched. */
  lemma SplitRight(t: seq<int>, size: int, lo: int, n: int, h: int)
    requires |t| == McbTotal && InTable(t, lo, n) && n == 2 * h
    requires MinSize <= size <= 16 * n && Tree(t, lo, h)
    requires Search(IfEmpty, t, size, lo, h).slot.None?
    requires Tree(Search(IfEmpty, t, size, lo + h, h).table, lo + h, h)
    ensures Tree(Search(IfEmpty, t, size, lo, n).table, lo, n)
  {
    DescendRight(IfEmpty, t, size, lo, n, h);
    var right := Search(IfEmpty, t, size, lo + h, h);
    SearchFrame(IfEmpty, t, size, lo + h, h);
    TreeFrame(t, right.table, lo, h);
    assert n / 2 == h;
  }

  /** A split window whose left half hands out a block: the right half already has its own entry and is kept. */
  lemma SplitLeft(t: seq<int>, size: int, lo: int, n: int, h: int)
    requires |t| == McbTotal && InTable(t, lo, n) && n == 2 * h
    requires MinSize <= size <= 16 * n && Tree(t, lo + h, h)
    requires Search(IfEmpty, t, size, lo, h).slot.Some?
    requires Tree(Search(IfEmpty, t, size, lo, h).table, lo, h)
    ensures Tree(Search(IfEmpty, t, size, lo, n).table, lo, n)
  {
    var left := Search(IfEmpty, t, size, lo, h);
    TreeHead(t, lo + h, h);
    SearchFrame(IfEmpty, t, size, lo, h);
    DescendLeft(IfEmpty, t, size, lo, n, h, left);
    TreeFrame(t, left.table, lo + h, h);
    assert n / 2 == h;
  }

  /** A window too small to halve for the request is taken whole or not at all. */
  lemma BaseKeepsTree(t: seq<int>, size: int, lo: int, n: int)
    requires |t| == McbTotal && InTable(t, lo, n)
    requires Tree(t, lo, n) || Covered(t, lo, n)
    requires MinSize <= size <= MaxSize && size > 16 * n
    ensures KeepsTree(t, Search(IfEmpty, t, size, lo, n), size, lo, n)
  {
    var r := Search(IfEmpty, t, size, lo, n);
    if Covered(t, lo, n) {
      if t[lo] != 0 && !Occupied(t[lo]) {
        SizeEntry(n);
        assert Leaf(r.table, lo, n);
      }
    } else {
      TreeHead(t, lo, n / 2);
    }
  }

  /**
   * Inside a free block, after the left half has handed out a block and
   * become a tree, recording the empty right half as a free block of its
   * size makes the whole window a tree.
   */
  lemma CoveredSplit(t: seq<int>, u: seq<int>, size: int, lo: int, h: int)
    requires |t| == |u| == McbTotal && InTable(t, lo, 2 * h) && h >= 1
    requires Covered(t, lo, 2 * h) && Tree(u, lo, h)
    requires forall i :: 0 <= i < |t| && !(lo <= i < lo + h) ==> u[i] == t[i]
    ensures Tree(u[lo + h := 32 * h], lo, 2 * h)
  {
    var v := u[lo + h := 32 * h];
    TreeFrame(u, v, lo, h);
    assert Leaf(v, lo + h, h);
  }

  /**
   * Completeness of the corrected search: if the window is a tree holding a
   * free block of at least `size` bytes, the search hands something out.
   */
  lemma {:induction false} SearchFinds(t: seq<int>, size: int, lo: int, n: int, i: int)
    requires |t| == McbTotal && InTable(t, lo, n) && IsPow2(n) && Tree(t, lo, n)
    requires MinSize <= size <= MaxSize && lo <= i < lo + n
    requires t[i] != 0 && !Occupied(t[i]) && t[i] >= size
    ensures Search(IfEmpty, t, size, lo, n).slot.Some?
    decreases n
  {
    if Leaf(t, lo, n) {
      assert i == lo && Covered(t, lo, n);
      SearchKeepsTree(t, size, lo, n);
    } else {
      var h := n / 2;
      assert Tree(t, lo, h) && Tree(t, lo + h, h) && IsPow2(h);
      if i < lo + h {
        LeafAt(t, lo, h, i);
        assert size <= 16 * n;
        SearchFinds(t, size, lo, h, i);
      } else {
        LeafAt(t, lo + h, h, i);
        assert size <= 16 * n;
        if Search(IfEmpty, t, size, lo, h).slot.None? {
          SearchFinds(t, size, lo + h, h, i);
        }
      }
    }
  }

  /** There is a free block of at least `size` bytes somewhere in the MCB. */
  ghost predicate HasFreeBlock(t: seq<int>, size: int)
  {
    exists i :: 0 <= i < |t| && t[i] != 0 && !Occupied(t[i]) && t[i] >= size
  }

  /**
   * _kalloc with the corrected midpoint rule, on a well-formed MCB: the MCB
   * stays well formed; a block is handed out exactly when the size is valid
   * and some free block is large enough; the block handed out was free, is
   * now occupied, is aligned on its own size and is the smallest power of two
   * that holds the request.
   */
  lemma AllocCorrect(t: seq<int>, size: int)
    requires WellFormed(t)
    ensures var r := Search(IfEmpty, t, size, 0, McbTotal);
            && WellFormed(r.table)
            && (r.slot.Some? <==> MinSize <= size <= MaxSize && HasFreeBlock(t, size))
            && (r.slot.Some? ==> Granted(t, r.table, r.slot.value, size, 0, McbTotal))
  {
    TotalIsPow2();
    var r := Search(IfEmpty, t, size, 0, McbTotal);
    SearchKeepsTree(t, size, 0, McbTotal);
    SearchGrants(IfEmpty, t, size, 0, McbTotal);
    if MinSize <= size <= MaxSize && HasFreeBlock(t, size) {
      var i :| 0 <= i < |t| && t[i] != 0 && !Occupied(t[i]) && t[i] >= size;
      SearchFinds(t, size, 0, McbTotal, i);
    }
    if r.slot.Some? {
      assert HasFreeBlock(t, size) by {
        var s := r.slot.value;
        assert t[s] != 0 && !Occupied(t[s]) && t[s] >= size;
      }
    }
  }

  /**
   * A well-formed MCB reached from a fresh one by four 64-byte allocations
   * (slots 0, 2, 4, 6) and freeing the first and third: 64-byte blocks at
   * slots 0..7, free, occupied, free, occupied, then free blocks of 256 B,
   * 512 B, ... 8 KB completing the arena.
   */
  function Scenario(): (t: seq<int>)
    ensures |t| == McbTotal
  {
    seq(McbTotal, i => 0)[0 := 64][2 := 65][4 := 64][6 := 65]
      [8 := 256][16 := 512][32 := 1024][64 := 2048][128 := 4096][256 := 8192]
  }

  lemma ScenarioWellFormed()
    ensures WellFormed(Scenario())
  {
    var t := Scenario();
    assert Leaf(t, 0, 2) && Leaf(t, 2, 2) && Leaf(t, 4, 2) && Leaf(t, 6, 2);
    assert Tree(t, 0, 4) && Tree(t, 4, 4);
    assert Leaf(t, 8, 8) && Tree(t, 0, 16);
    assert Leaf(t, 16, 16) && Tree(t, 0, 32);
    assert Leaf(t, 32, 32) && Tree(t, 0, 64);
    assert Leaf(t, 64, 64) && Tree(t, 0, 128);
    assert Leaf(t, 128, 128) && Tree(t, 0, 256);
    assert Leaf(t, 256, 256);
  }

  /**
   * Above the first eight slots a small request only descends left, and the
   * midpoint writes on the way back up land at slot 8 or later: the slot
   * handed out and the first eight entries are those of the 8-slot search.
   */
  lemma {:induction false} Climb(rule: MidpointRule, t: seq<int>, size: int, n: int, j: int)
    requires |t| == McbTotal && IsPow2(n) && 8 <= n <= McbTotal && 0 <= j < 8
    requires MinSize <= size <= 128
    requires Search(rule, t, size, 0, 8).slot.Some?
    ensures Search(rule, t, size, 0, n).slot == Search(rule, t, size, 0, 8).slot
    ensures Search(rule, t, size, 0, n).table[j] == Search(rule, t, size, 0, 8).table[j]
    decreases n
  {
    if n > 8 {
      Below(8, n);
      var h := n / 2;
      assert n == 2 * h && IsPow2(h) && h >= 8;
      Climb(rule, t, size, h, j);
      var left := Search(rule, t, size, 0, h);
      DescendLeft(rule, t, size, 0, n, h, left);
      var r := Search(rule, t, size, 0, n);
      if RecordsHalf(rule, left.table[h]) {
        assert r == Placed(left.table[h := 16 * n], left.slot);
        assert r.table[j] == left.table[j];
      } else {
        assert r == left;
      }
    } else {
      assert n == 8;
    }
  }

  /** A free 128-byte block recorded at slot 4 over an occupied block at slot 6 is not a buddy tree. */
  lemma StaleMergeBreaksTree(u: seq<int>)
    requires |u| == McbTotal && u[4] == 128 && u[6] == 65
    ensures !WellFormed(u)
  {
    if WellFormed(u) {
      TotalIsPow2();
      LeafAt(u, 0, McbTotal, 4);
      SizeEntry(4);
      assert false;
    }
  }

  /** The first request of the scenario under the midpoint rule as written: 32 B at slot 0, slot 4 rewritten. */
  lemma AsWrittenFirst()
    ensures var first := Search(IfFree, Scenario(), 32, 0, McbTotal);
            first.slot == Some(0) && first.table[0] == 33 && first.table[4] == 128 && first.table[6] == 65
  {
    var t := Scenario();
    assert t[0] == 64 && t[1] == 0 && t[2] == 65 && t[4] == 64 && t[6] == 65;
    FirstEightSlots(t);
    TotalIsPow2();
    Climb(IfFree, t, 32, McbTotal, 0);
    Climb(IfFree, t, 32, McbTotal, 4);
    Climb(IfFree, t, 32, McbTotal, 6);
  }

  /**
   * Within the first eight slots of the scenario, 32 B goes to slot 0 and the
   * way back up records 32 B at slot 1 and rewrites the even entry at slot 4.
   */
  lemma FirstEightSlots(t: seq<int>)
    requires |t| == McbTotal && t[0] == 64 && t[1] == 0 && t[2] == 65 && t[4] == 64 && t[6] == 65
    ensures var r := Search(IfFree, t, 32, 0, 8);
            r.slot == Some(0) && r.table[0] == 33 && r.table[4] == 128 && r.table[6] == 65
  {
    SearchTakes(IfFree, t, 32, 0, 1);
    var r1 := Search(IfFree, t, 32, 0, 1);
    assert r1 == Placed(t[0 := 33], Some(0));
    DescendLeft(IfFree, t, 32, 0, 2, 1, r1);
    var r2 := Search(IfFree, t, 32, 0, 2);
    assert r2 == Placed(r1.table[1 := 32], Some(0));
    DescendLeft(IfFree, t, 32, 0, 4, 2, r2);
    var r4 := Search(IfFree, t, 32, 0, 4);
    assert r4 == r2;
    DescendLeft(IfFree, t, 32, 0, 8, 4, r4);
  }

  /** After it, a 128-byte request under the midpoint rule as written is handed slot 4. */
  lemma AsWrittenSecond(u: seq<int>)
    requires |u| == McbTotal && u[0] == 33 && u[4] == 128 && u[6] == 65
    ensures var second := Search(IfFree, u, 128, 0, McbTotal);
            second.slot == Some(4) && second.table[4] == 129 && second.table[6] == 65
  {
    TotalIsPow2();
    SearchTakes(IfFree, u, 128, 0, 4);
    var s4 := Search(IfFree, u, 128, 0, 4);
    assert s4 == Placed(u, None);
    SearchTakes(IfFree, u, 128, 4, 4);
    var s4r := Search(IfFree, u, 128, 4, 4);
    assert s4r == Placed(u[4 := 129], Some(4));
    DescendRight(IfFree, u, 128, 0, 8, 4);
    var s8 := Search(IfFree, u, 128, 0, 8);
    assert s8 == s4r;
    Climb(IfFree, u, 128, McbTotal, 4);
    Climb(IfFree, u, 128, McbTotal, 6);
  }

  /**
   * The midpoint rule as written breaks the MCB. On the well-formed Scenario,
   * allocating 32 B hands out slot 0 but, on the way back up, rewrites the
   * even entry at slot 4 to a free 128-byte block although slot 6 still
   * holds an occupied 64-byte block; the MCB is no longer well formed. A
   * following 128-byte request is then handed slot 4, a 4-slot block over
   * the occupied block at slot 6.
   */
  lemma AsWrittenOverlaps()
    ensures WellFormed(Scenario())
    ensures var first := Search(IfFree, Scenario(), 32, 0, McbTotal);
            var second := Search(IfFree, first.table, 128, 0, McbTotal);
            && first.slot == Some(0)
            && !WellFormed(first.table)
            && second.slot == Some(4)
            && Span(second.table[4]) == 4 && Occupied(second.table[6])
  {
    TotalIsPow2();
    ScenarioWellFormed();
    AsWrittenFirst();
    var first := Search(IfFree, Scenario(), 32, 0, McbTotal);
    StaleMergeBreaksTree(first.table);
    AsWrittenSecond(first.table);
    SizeEntry(4);
  }
}
