/**
 The meaning of a fixed-depth k-ary Merkle tree: every node is defined by recursion on the leaves,
 padded with the empty leaf, with no reference to what an implementation stores.
 */
module MerkleSpec {
  import opened Arithmetic

  /** A hash over rows of `arity` children and the value of an empty leaf. */
  datatype Hasher<!E> = Hasher(arity: nat, zero: E, hash: seq<E> -> E) {
    predicate Valid() { 2 <= arity <= 256 }
  }

  /** The hash of an empty subtree of height `level`. */
  function ZeroHash<E>(h: Hasher<E>, level: nat): E {
    if level == 0 then h.zero else h.hash(seq(h.arity, _ => ZeroHash(h, level - 1)))
  }

  function PaddedLeaf<E>(h: Hasher<E>, leaves: seq<E>, i: nat): E {
    if i < |leaves| then leaves[i] else h.zero
  }

  /** The naive tree: pad with empty leaves, hash everything. */
  function Node<E>(h: Hasher<E>, leaves: seq<E>, level: nat, i: nat): E
    decreases level, 1
  {
    if level == 0 then PaddedLeaf(h, leaves, i) else h.hash(Children(h, leaves, level - 1, i))
  }

  /** The row of `arity` nodes at `level` below the parent numbered `parent`. */
  function Children<E>(h: Hasher<E>, leaves: seq<E>, level: nat, parent: nat): (row: seq<E>)
    ensures |row| == h.arity
    decreases level, 2
  {
    seq(h.arity, j requires 0 <= j < h.arity => Node(h, leaves, level, parent * h.arity + j))
  }

  function Root<E>(h: Hasher<E>, depth: nat, leaves: seq<E>): E {
    Node(h, leaves, depth, 0)
  }

  /** How many nodes at `level` have a leaf of `n` leaves below them. */
  function RowLen(arity: nat, n: nat, level: nat): nat
    requires arity > 0
  {
    if level == 0 then n else CeilDiv(RowLen(arity, n, level - 1), arity)
  }

  /** The ancestor at `level` of leaf `i`. */
  function Ancestor(arity: nat, i: nat, level: nat): nat
    requires arity > 0
  {
    if level == 0 then i else Quotient(Ancestor(arity, i, level - 1), arity)
  }

  /** The stored part of a level: the nodes with a leaf below them. */
  function Row<E>(h: Hasher<E>, leaves: seq<E>, level: nat): (row: seq<E>)
    requires h.Valid()
    ensures |row| == RowLen(h.arity, |leaves|, level)
  {
    seq(RowLen(h.arity, |leaves|, level),
        i requires 0 <= i < RowLen(h.arity, |leaves|, level) => Node(h, leaves, level, i))
  }

  /** The stored form of the whole tree. */
  function Rows<E>(h: Hasher<E>, depth: nat, leaves: seq<E>): (rows: seq<seq<E>>)
    requires h.Valid()
    ensures |rows| == depth + 1
  {
    seq(depth + 1, level requires 0 <= level <= depth => Row(h, leaves, level))
  }

  /** `s` with `patch` written over it from `index` on, growing it where `patch` runs past its end. */
  function Overwrite<E>(s: seq<E>, index: nat, patch: seq<E>): (r: seq<E>)
    requires index <= |s|
    ensures |r| == Max(index + |patch|, |s|)
  {
    s[..index] + patch + (if index + |patch| < |s| then s[index + |patch|..] else [])
  }

  // ---------- lengths of rows ----------

  /** Row `level` of a tree of `n` leaves has exactly `ceil(n / arity^level)` nodes. */
  lemma {:induction false} RowLenClosed(arity: nat, n: nat, level: nat)
    requires arity > 0
    ensures Pow(arity, level) > 0
    ensures RowLen(arity, n, level) == CeilDiv(n, Pow(arity, level))
  {
    PowPositive(arity, level);
    if level > 0 {
      RowLenClosed(arity, n, level - 1);
      CeilDivNested(n, Pow(arity, level - 1), arity);
    }
  }

  lemma {:induction false} AncestorClosed(arity: nat, i: nat, level: nat)
    requires arity > 0
    ensures Pow(arity, level) > 0
    ensures Ancestor(arity, i, level) == i / Pow(arity, level)
  {
    PowPositive(arity, level);
    if level > 0 {
      AncestorClosed(arity, i, level - 1);
      FloorDivNested(i, Pow(arity, level - 1), arity);
    }
  }

  lemma {:induction false} RowLenMonotone(arity: nat, m: nat, n: nat, level: nat)
    requires arity > 0 && m <= n
    ensures RowLen(arity, m, level) <= RowLen(arity, n, level)
  {
    if level > 0 {
      RowLenMonotone(arity, m, n, level - 1);
      CeilDivMonotone(RowLen(arity, m, level - 1), RowLen(arity, n, level - 1), arity);
    }
  }

  lemma RowLenMax(arity: nat, m: nat, n: nat, level: nat)
    requires arity > 0
    ensures RowLen(arity, Max(m, n), level) == Max(RowLen(arity, m, level), RowLen(arity, n, level))
  {
    RowLenMonotone(arity, Min(m, n), Max(m, n), level);
  }

  lemma AncestorFirstChild(arity: nat, i: nat, level: nat)
    requires arity > 0 && level > 0
    ensures Ancestor(arity, i, level) * arity <= Ancestor(arity, i, level - 1)
  {
    FloorTimes(Ancestor(arity, i, level - 1), arity);
  }

  /** The ancestors of leaves below `n` are exactly inside the stored rows. */
  lemma {:induction false} AncestorWithinRow(arity: nat, i: nat, n: nat, level: nat)
    requires arity > 0 && i <= n
    ensures Ancestor(arity, i, level) <= RowLen(arity, n, level)
    ensures i < n ==> Ancestor(arity, i, level) < RowLen(arity, n, level)
  {
    if level > 0 {
      AncestorWithinRow(arity, i, n, level - 1);
      FloorBelowCeil(Ancestor(arity, i, level - 1), RowLen(arity, n, level - 1), arity);
    }
  }

  // ---------- nodes ----------

  /** Below a node past the end of its row are only nodes past the end of theirs. */
  lemma ChildPastEnd(arity: nat, n: nat, level: nat, i: nat, j: nat)
    requires arity > 0 && level > 0 && RowLen(arity, n, level) <= i
    ensures RowLen(arity, n, level - 1) <= i * arity + j
  {
    BelowCeilDiv(i, RowLen(arity, n, level - 1), arity);
  }

  /** Below a node before the ancestor of a leaf are only nodes before its ancestor one level down. */
  lemma ChildBefore(arity: nat, leaf: nat, level: nat, i: nat, j: nat)
    requires arity > 0 && level > 0 && j < arity && i < Ancestor(arity, leaf, level)
    ensures i * arity + j < Ancestor(arity, leaf, level - 1)
  {
    BelowFloorDiv(i, Ancestor(arity, leaf, level - 1), arity);
  }

  lemma {:induction false} ChildIsZero<E>(h: Hasher<E>, leaves: seq<E>, level: nat, i: nat, j: nat)
    requires h.Valid() && level > 0 && j < h.arity && RowLen(h.arity, |leaves|, level) <= i
    ensures Children(h, leaves, level - 1, i)[j] == ZeroHash(h, level - 1)
    decreases level, 0
  {
    ChildPastEnd(h.arity, |leaves|, level, i, j);
    NodePastEnd(h, leaves, level - 1, i * h.arity + j);
  }

  /** A node with no leaf below it is the hash of an empty subtree. */
  lemma {:induction false} NodePastEnd<E>(h: Hasher<E>, leaves: seq<E>, level: nat, i: nat)
    requires h.Valid() && RowLen(h.arity, |leaves|, level) <= i
    ensures Node(h, leaves, level, i) == ZeroHash(h, level)
    decreases level, 1
  {
    if level > 0 {
      forall j {:trigger Children(h, leaves, level - 1, i)[j]} | 0 <= j < h.arity
        ensures Children(h, leaves, level - 1, i)[j] == ZeroHash(h, level - 1)
      {
        ChildIsZero(h, leaves, level, i, j);
      }
      assert Children(h, leaves, level - 1, i) == seq(h.arity, _ => ZeroHash(h, level - 1));
    }
  }

  lemma {:induction false} ChildOutside<E>(h: Hasher<E>, a: seq<E>, b: seq<E>, lo: nat, hi: nat, level: nat, i: nat,
          j: nat)
    requires h.Valid() && level > 0 && j < h.arity
    requires forall k: nat :: !(lo <= k < hi) ==> PaddedLeaf(h, a, k) == PaddedLeaf(h, b, k)
    requires i < Ancestor(h.arity, lo, level) || RowLen(h.arity, hi, level) <= i
    ensures Children(h, a, level - 1, i)[j] == Children(h, b, level - 1, i)[j]
    decreases level, 0
  {
    if i < Ancestor(h.arity, lo, level) {
      ChildBefore(h.arity, lo, level, i, j);
    } else {
      ChildPastEnd(h.arity, hi, level, i, j);
    }
    NodeOutsideWindow(h, a, b, lo, hi, level - 1, i * h.arity + j);
  }

  /** A node depends only on the leaves below it: outside the ancestors of `[lo, hi)` nothing moves. */
  lemma {:induction false} NodeOutsideWindow<E>(h: Hasher<E>, a: seq<E>, b: seq<E>, lo: nat, hi: nat, level: nat,
          i: nat)
    requires h.Valid()
    requires forall k: nat :: !(lo <= k < hi) ==> PaddedLeaf(h, a, k) == PaddedLeaf(h, b, k)
    requires i < Ancestor(h.arity, lo, level) || RowLen(h.arity, hi, level) <= i
    ensures Node(h, a, level, i) == Node(h, b, level, i)
    decreases level, 1
  {
    if level > 0 {
      forall j {:trigger Children(h, a, level - 1, i)[j]} | 0 <= j < h.arity
        ensures Children(h, a, level - 1, i)[j] == Children(h, b, level - 1, i)[j]
      {
        ChildOutside(h, a, b, lo, hi, level, i, j);
      }
      assert Children(h, a, level - 1, i) == Children(h, b, level - 1, i);
    }
  }

  /** Trailing empty leaves do not change any node. */
  lemma PaddingInvisible<E>(h: Hasher<E>, leaves: seq<E>, n: nat, level: nat, i: nat)
    requires h.Valid()
    ensures Node(h, leaves, level, i) == Node(h, leaves + seq(n, _ => h.zero), level, i)
  {
    EmptyRow(h.arity, level);
    NodeOutsideWindow(h, leaves, leaves + seq(n, _ => h.zero), 0, 0, level, i);
  }

  lemma {:induction false} EmptyRow(arity: nat, level: nat)
    requires arity > 0
    ensures RowLen(arity, 0, level) == 0
  {
    if level > 0 {
      EmptyRow(arity, level - 1);
      BelowCeilDiv(0, 0, arity);
    }
  }

  // ---------- the cost of re-hashing a window ----------

  /** The parents hashed when the leaves `[lo, hi)` change: their ancestors on levels `1..levels`. */
  function WindowCost(arity: nat, lo: nat, hi: nat, levels: nat): nat
    requires arity > 0 && lo < hi
  {
    if levels == 0 then 0
    else
      AncestorWithinRow(arity, lo, hi, levels);
      WindowCost(arity, lo, hi, levels - 1) + (RowLen(arity, hi, levels) - Ancestor(arity, lo, levels))
  }

  /** A window of `u + 1` nodes has at most `ceil(u / arity) + 1` parents. */
  lemma WindowShrinks(arity: nat, lo: nat, hi: nat, s: nat, e: nat)
    requires arity > 0 && lo < hi && s == lo / arity && e == CeilDiv(hi, arity)
    ensures s < e
    ensures arity * (e - s - 1) <= (hi - lo - 1) + (arity - 1)
  {
    FloorBelowCeil(lo, hi, arity);
    BelowCeilDiv(e - 1, hi, arity);
    var r := lo % arity;
    assert s * arity + r == lo;
    assert (e - 1) * arity < hi;
    assert arity * (e - s - 1) == (e - 1) * arity - s * arity;
  }

  /**
   Replacing `n` leaves hashes at most `2 * levels + (n - 1) / (arity - 1)` parents, however large
   the tree is.
   */
  lemma {:induction false} WindowCostBound(arity: nat, lo: nat, hi: nat, levels: nat)
    requires arity >= 2 && lo < hi
    ensures levels <= WindowCost(arity, lo, hi, levels) <= 2 * levels + (hi - lo - 1) / (arity - 1)
  {
    AncestorWithinRow(arity, lo, hi, levels);
    WindowCostScaled(arity, lo, hi, levels);
    QuotientBound(WindowCost(arity, lo, hi, levels), 2 * levels, hi - lo - 1, arity - 1);
  }

  lemma QuotientBound(c: nat, k: nat, u: nat, a: nat)
    requires a > 0 && a * c <= a * k + u
    ensures c <= k + u / a
  {
    if c > k {
      BelowFloorDiv(c - k - 1, u, a);
      assert (c - k - 1) * a + a == a * c - a * k;
    }
  }

  lemma {:induction false} WindowCostScaled(arity: nat, lo: nat, hi: nat, levels: nat)
    requires arity >= 2 && lo < hi
    ensures Ancestor(arity, lo, levels) < RowLen(arity, hi, levels)
    ensures levels <= WindowCost(arity, lo, hi, levels)
    ensures (arity - 1) * WindowCost(arity, lo, hi, levels) +
        (RowLen(arity, hi, levels) - Ancestor(arity, lo, levels) - 1)
         <= (arity - 1) * (2 * levels) + (hi - lo - 1)
  {
    if levels > 0 {
      WindowCostScaled(arity, lo, hi, levels - 1);
      var s, e := Ancestor(arity, lo, levels - 1), RowLen(arity, hi, levels - 1);
      WindowShrinks(arity, s, e, Ancestor(arity, lo, levels), RowLen(arity, hi, levels));
      CostStep(arity - 1, RowLen(arity, hi, levels) - Ancestor(arity, lo, levels) - 1, e - s - 1,
               WindowCost(arity, lo, hi, levels - 1), levels, hi - lo - 1);
    }
  }

  lemma CostStep(a: nat, v: nat, u: nat, cost: nat, levels: nat, n: nat)
    requires levels > 0
    requires (a + 1) * v <= u + a
    requires a * cost + u <= a * (2 * (levels - 1)) + n
    ensures a * (cost + (v + 1)) + v <= a * (2 * levels) + n
  {
    assert a * (cost + (v + 1)) == a * cost + a * v + a;
    assert (a + 1) * v == a * v + v;
    assert a * (2 * (levels - 1)) == a * (2 * levels) - 2 * a;
  }
}
