/**
 * The implicit binary buddy tree that the MCB encodes.
 *
 * A window of n slots starting at slot lo is either one block (a leaf: the
 * entry at lo holds 32*n bytes, flagged or not, and every other entry of the
 * window is 0) or split into two buddy halves that are windows of the same
 * kind. The whole table is well formed when its 512-slot window is. Only
 * block-start entries are non-zero, so a block's extent can be read off its
 * entry alone, and no parent/child links are stored.
 */
module BuddyTree {
  import opened Layout
  import opened Entry
  import opened Pow2

  /** The window of n slots starting at lo lies inside table t. */
  predicate InTable(t: seq<int>, lo: int, n: int)
  {
    0 <= lo && 1 <= n && lo + n <= |t|
  }

  /** Every entry in [a, b) is 0. */
  ghost predicate Zero(t: seq<int>, a: int, b: int)
    requires 0 <= a && b <= |t|
  {
    forall i :: a <= i < b ==> t[i] == 0
  }

  /** The window is a single block of n granules, free or occupied. */
  ghost predicate Leaf(t: seq<int>, lo: int, n: int)
    requires InTable(t, lo, n)
  {
    (t[lo] == 32 * n || t[lo] == 32 * n + 1) && Zero(t, lo + 1, lo + n)
  }

  /** The window is a block, or is split into two buddy halves that are trees. */
  ghost predicate Tree(t: seq<int>, lo: int, n: int)
    requires InTable(t, lo, n)
    decreases n
  {
    || Leaf(t, lo, n)
    || (n >= 2 && n % 2 == 0 && Tree(t, lo, n / 2) && Tree(t, lo + n / 2, n / 2))
  }

  /** The whole MCB encodes a partition of the arena into buddy blocks. */
  ghost predicate WellFormed(t: seq<int>)
  {
    |t| == McbTotal && Tree(t, 0, McbTotal)
  }

  /**
   * The window lies inside one block that starts at lo or before it: its
   * entries past lo are 0, and the entry at lo is 0 (the block starts
   * earlier) or describes a block at least as large as the window.
   */
  ghost predicate Covered(t: seq<int>, lo: int, n: int)
    requires InTable(t, lo, n)
  {
    Zero(t, lo + 1, lo + n) && (t[lo] == 0 || t[lo] >= 32 * n)
  }

  /** The first entry of a tree is the entry of its left-most block: non-zero and no larger than the window. */
  lemma {:induction false} TreeHead(t: seq<int>, lo: int, n: int)
    requires InTable(t, lo, n) && Tree(t, lo, n)
    ensures MinSize <= t[lo] <= 32 * n + 1
    decreases n
  {
    if !Leaf(t, lo, n) {
      TreeHead(t, lo, n / 2);
    }
  }

  /** Whether a window is a tree depends only on the entries inside it. */
  lemma {:induction false} TreeFrame(t: seq<int>, u: seq<int>, lo: int, n: int)
    requires InTable(t, lo, n) && InTable(u, lo, n) && Tree(t, lo, n)
    requires forall i :: lo <= i < lo + n ==> u[i] == t[i]
    ensures Tree(u, lo, n)
    decreases n
  {
    if !Leaf(t, lo, n) {
      TreeFrame(t, u, lo, n / 2);
      TreeFrame(t, u, lo + n / 2, n / 2);
    } else {
      assert Leaf(u, lo, n);
    }
  }

  /**
   * Every non-zero entry of a tree starts a block: the block is a leaf of
   * power-of-two size, aligned on its size relative to the window, and ends
   * inside the window.
   */
  lemma {:induction false} LeafAt(t: seq<int>, lo: int, n: int, i: int)
    requires InTable(t, lo, n) && IsPow2(n) && Tree(t, lo, n)
    requires lo <= i < lo + n && t[i] != 0
    ensures IsPow2(Span(t[i])) && Span(t[i]) <= n
    ensures (i - lo) % Span(t[i]) == 0 && i + Span(t[i]) <= lo + n
    ensures Unmark(t[i]) == 32 * Span(t[i])
    ensures Leaf(t, i, Span(t[i]))
    decreases n
  {
    if Leaf(t, lo, n) {
      WholeLeaf(t, lo, n, i);
    } else {
      var h := Halve(n);
      TreeHalves(t, lo, n, h);
      if i < lo + h {
        LeafAt(t, lo, h, i);
      } else {
        LeafAt(t, lo + h, h, i);
        RightHalfAligned(i - lo, h, Span(t[i]));
      }
    }
  }

  /** In a window that is a single block, the only non-zero entry is the first, and it spans the window. */
  lemma WholeLeaf(t: seq<int>, lo: int, n: int, i: int)
    requires InTable(t, lo, n) && IsPow2(n) && Leaf(t, lo, n)
    requires lo <= i < lo + n && t[i] != 0
    ensures i == lo && Span(t[i]) == n && Unmark(t[i]) == 32 * n
    ensures (i - lo) % Span(t[i]) == 0
  {
    Positive(n);
    SizeEntry(n);
    ZeroMod(n);
  }

  /** An offset x past h that is aligned on k relative to h is aligned on k, when k divides h. */
  lemma RightHalfAligned(x: int, h: int, k: int)
    requires IsPow2(h) && IsPow2(k) && k <= h && (x - h) % k == 0
    ensures x % k == 0
  {
    Divides(k, h);
    ModAddMultiple(x - h, h, k);
  }

  /** The whole MCB is one window of a power-of-two number of slots. */
  lemma TotalIsPow2()
    ensures IsPow2(McbTotal)
  {
    assert IsPow2(2) && IsPow2(4) && IsPow2(8) && IsPow2(16) && IsPow2(32);
    assert IsPow2(64) && IsPow2(128) && IsPow2(256) && IsPow2(512);
  }

  /**
   * An aligned sub-window of a tree that holds a block start no larger than
   * itself is a node of the tree (not a part of one larger block).
   */
  lemma {:induction false} NodeAt(t: seq<int>, lo: int, n: int, p: int, w: int, i: int)
    requires InTable(t, lo, n) && IsPow2(n) && Tree(t, lo, n)
    requires IsPow2(w) && w <= n && lo <= p && p + w <= lo + n && (p - lo) % w == 0
    requires p <= i < p + w && t[i] != 0 && Unmark(t[i]) <= 32 * w
    ensures Tree(t, p, w)
    decreases n
  {
    Positive(w);
    if w == n {
      DivModUnique(p - lo, w, 0, p - lo);
    } else {
      Below(w, n);
      SizeEntry(n);
      assert !Leaf(t, lo, n);
      var h := n / 2;
      Divides(w, h);
      if p < lo + h {
        AlignedFits(p - lo, w, h);
        NodeAt(t, lo, h, p, w, i);
      } else {
        ModAddMultiple(p - lo - h, h, w);
        NodeAt(t, lo + h, h, p, w, i);
      }
    }
  }

  /** In a well-formed table every non-zero entry is a block start in the sense _rfree needs. */
  lemma EntryIsBlockStart(t: seq<int>, s: int)
    requires WellFormed(t) && 0 <= s < |t| && t[s] != 0
    ensures BlockStart(t[s], s)
  {
    LeafAt(t, 0, McbTotal, s);
  }

  /**
   * Replacing a subtree by another tree keeps the enclosing window a tree:
   * an aligned sub-window that is itself a tree is a node of the tree, never
   * a part of a larger block.
   */
  lemma {:induction false} Replace(t: seq<int>, u: seq<int>, lo: int, n: int, m: int, w: int)
    requires |u| == |t| && InTable(t, lo, n) && IsPow2(n) && IsPow2(w)
    requires lo <= m && m + w <= lo + n && (m - lo) % w == 0
    requires Tree(t, lo, n) && Tree(t, m, w) && Tree(u, m, w)
    requires forall i :: lo <= i < lo + n && !(m <= i < m + w) ==> u[i] == t[i]
    ensures Tree(u, lo, n)
    decreases n, 1
  {
    if w < n {
      var h := Descend(t, lo, n, m, w);
      if m < lo + h {
        ReplaceInLeft(t, u, lo, n, h, m, w);
      } else {
        ReplaceInRight(t, u, lo, n, h, m, w);
      }
    }
  }

  /** Replace, for a subtree in the left half of a split window. */
  lemma {:induction false} ReplaceInLeft(t: seq<int>, u: seq<int>, lo: int, n: int, h: int, m: int, w: int)
    requires |u| == |t| && InTable(t, lo, n) && n == 2 * h && IsPow2(h) && IsPow2(w) && h % w == 0
    requires lo <= m < lo + h && m + w <= lo + n && (m - lo) % w == 0
    requires Tree(t, lo, h) && Tree(t, lo + h, h) && Tree(t, m, w) && Tree(u, m, w)
    requires forall i :: lo <= i < lo + n && !(m <= i < m + w) ==> u[i] == t[i]
    ensures Tree(u, lo, n)
    decreases n, 0
  {
    Positive(w);
    AlignedFits(m - lo, w, h);
    assert m + w <= lo + h;
    Replace(t, u, lo, h, m, w);
    TreeFrame(t, u, lo + h, h);
    SplitTree(u, lo, n, h);
  }

  /** Replace, for a subtree in the right half of a split window. */
  lemma {:induction false} ReplaceInRight(t: seq<int>, u: seq<int>, lo: int, n: int, h: int, m: int, w: int)
    requires |u| == |t| && InTable(t, lo, n) && n == 2 * h && IsPow2(h) && IsPow2(w) && h % w == 0
    requires lo + h <= m && m + w <= lo + n && (m - lo) % w == 0
    requires Tree(t, lo, h) && Tree(t, lo + h, h) && Tree(t, m, w) && Tree(u, m, w)
    requires forall i :: lo <= i < lo + n && !(m <= i < m + w) ==> u[i] == t[i]
    ensures Tree(u, lo, n)
    decreases n, 0
  {
    ModAddMultiple(m - lo - h, h, w);
    Replace(t, u, lo + h, h, m, w);
    TreeFrame(t, u, lo, h);
    SplitTree(u, lo, n, h);
  }

  /**
   * A tree holding a smaller aligned subtree is split: its halves are trees
   * of a power-of-two size that the subtree's size divides.
   */
  lemma Descend(t: seq<int>, lo: int, n: int, m: int, w: int) returns (h: int)
    requires InTable(t, lo, n) && IsPow2(n) && IsPow2(w) && w < n
    requires lo <= m && m + w <= lo + n
    requires Tree(t, lo, n) && Tree(t, m, w)
    ensures n == 2 * h && IsPow2(h) && h >= 1 && h % w == 0
    ensures Tree(t, lo, h) && Tree(t, lo + h, h)
  {
    Below(w, n);
    h := Halve(n);
    Divides(w, h);
    NotLeafAbove(t, lo, n, m, w);
    TreeHalves(t, lo, n, h);
  }

  /** A window holding a tree smaller than itself is not a single block. */
  lemma NotLeafAbove(t: seq<int>, lo: int, n: int, m: int, w: int)
    requires InTable(t, lo, n) && 1 <= w && 2 * w <= n
    requires lo <= m && m + w <= lo + n
    requires Tree(t, m, w)
    ensures !Leaf(t, lo, n)
  {
    TreeHead(t, m, w);
  }

  /** The halves of a tree that is not a single block are trees. */
  lemma TreeHalves(t: seq<int>, lo: int, n: int, h: int)
    requires InTable(t, lo, n) && n == 2 * h && h >= 1
    requires Tree(t, lo, n) && !Leaf(t, lo, n)
    ensures Tree(t, lo, h) && Tree(t, lo + h, h)
  {
    assert n / 2 == h;
  }

  /** A window whose two halves are trees is a tree. */
  lemma SplitTree(u: seq<int>, lo: int, n: int, h: int)
    requires InTable(u, lo, n) && n == 2 * h && h >= 1
    requires Tree(u, lo, h) && Tree(u, lo + h, h)
    ensures Tree(u, lo, n)
  {
    assert n / 2 == h;
  }

  /** Blocks of a tree never overlap: a block ends at or before the next block start. */
  lemma {:induction false} NoOverlap(t: seq<int>, lo: int, n: int, i: int, j: int)
    requires InTable(t, lo, n) && IsPow2(n) && Tree(t, lo, n)
    requires lo <= i < j < lo + n && t[i] != 0 && t[j] != 0
    ensures i + Span(t[i]) <= j
    decreases n
  {
    if !Leaf(t, lo, n) {
      var h := n / 2;
      if j < lo + h {
        NoOverlap(t, lo, h, i, j);
      } else if i >= lo + h {
        NoOverlap(t, lo + h, h, i, j);
      } else {
        LeafAt(t, lo, h, i);
      }
    }
  }

  /** The total of the block sizes recorded in entries [a, b), flags cleared. */
  ghost function Allotted(t: seq<int>, a: int, b: int): int
    requires 0 <= a <= b <= |t|
    decreases b - a
  {
    if a == b then 0 else Allotted(t, a, b - 1) + Unmark(t[b - 1])
  }

  lemma {:induction false} AllottedSplit(t: seq<int>, a: int, b: int, c: int)
    requires 0 <= a <= b <= c <= |t|
    ensures Allotted(t, a, c) == Allotted(t, a, b) + Allotted(t, b, c)
    decreases c - b
  {
    if b < c {
      AllottedSplit(t, a, b, c - 1);
    }
  }

  lemma {:induction false} AllottedZero(t: seq<int>, a: int, b: int)
    requires 0 <= a <= b <= |t| && Zero(t, a, b)
    ensures Allotted(t, a, b) == 0
    decreases b - a
  {
    if a < b {
      AllottedZero(t, a, b - 1);
    }
  }

  /** Conservation: the block sizes recorded in a tree add up to the size of the window. */
  lemma {:induction false} Conservation(t: seq<int>, lo: int, n: int)
    requires InTable(t, lo, n) && Tree(t, lo, n)
    ensures Allotted(t, lo, lo + n) == 32 * n
    decreases n
  {
    if Leaf(t, lo, n) {
      LeafConservation(t, lo, n);
    } else {
      var h := n / 2;
      assert n == 2 * h && Tree(t, lo, h) && Tree(t, lo + h, h);
      Conservation(t, lo, h);
      Conservation(t, lo + h, h);
      AllottedSplit(t, lo, lo + h, lo + n);
    }
  }

  /** A single block records its own size and nothing else in its window. */
  lemma LeafConservation(t: seq<int>, lo: int, n: int)
    requires InTable(t, lo, n) && Leaf(t, lo, n)
    ensures Allotted(t, lo, lo + n) == 32 * n
  {
    AllottedSplit(t, lo, lo + 1, lo + n);
    AllottedZero(t, lo + 1, lo + n);
    assert Allotted(t, lo, lo + 1) == Unmark(t[lo]);
  }

  /** In a well-formed MCB the recorded block sizes add up to the whole arena. */
  lemma WellFormedConserves(t: seq<int>)
    requires WellFormed(t)
    ensures Allotted(t, 0, McbTotal) == MaxSize
  {
    Conservation(t, 0, McbTotal);
  }
}
