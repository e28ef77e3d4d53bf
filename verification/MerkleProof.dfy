/** Inclusion proofs: what a proof folds to, which proofs verify, and what a verifying proof binds. */
module MerkleProofs {
  import opened Arithmetic
  import opened MerkleSpec

  datatype MerkleProof<E> = MerkleProof(
    leaf: E,
    /** `siblings[l]` is the row hashed into level `l + 1`; its entry at `path[l]` is not used. */
    siblings: seq<seq<E>>,
    /** Which entry of `siblings[l]` the node computed so far replaces. */
    path: seq<nat>,
    root: E)
  {
    predicate Shaped(arity: nat, depth: nat) {
      && |siblings| == depth && |path| == depth
      && (forall l :: 0 <= l < depth ==> |siblings[l]| == arity)
      && (forall l :: 0 <= l < depth ==> path[l] < arity)
    }
  }

  /** The row hashed at `level`: the proof's row with the node computed so far put in its place. */
  function ProofRow<E>(h: Hasher<E>, p: MerkleProof<E>, level: nat): (row: seq<E>)
    requires p.Shaped(h.arity, |p.path|) && level < |p.path|
    ensures |row| == h.arity
    decreases level, 1
  {
    p.siblings[level][p.path[level] := FoldTo(h, p, level)]
  }

  /** The node the proof computes at `level`, counting from the leaf. */
  function FoldTo<E>(h: Hasher<E>, p: MerkleProof<E>, level: nat): E
    requires p.Shaped(h.arity, |p.path|) && level <= |p.path|
    decreases level, 0
  {
    if level == 0 then p.leaf else h.hash(ProofRow(h, p, level - 1))
  }

  method Verify<E(==)>(h: Hasher<E>, p: MerkleProof<E>) returns (ok: bool)
    requires p.Shaped(h.arity, |p.path|)
    ensures ok <==> FoldTo(h, p, |p.path|) == p.root
  {
    var hash := p.leaf;
    for level := 0 to |p.path|
      invariant hash == FoldTo(h, p, level)
    {
      var children := p.siblings[level];
      children := children[p.path[level] := hash];
      hash := h.hash(children);
    }
    ok := hash == p.root;
  }

  // ---------- completeness ----------

  /** The proof of leaf `index`: its ancestors' positions and the rows they sit in. */
  function IssuedProof<E>(h: Hasher<E>, depth: nat, leaves: seq<E>, index: nat): (p: MerkleProof<E>)
    requires h.Valid() && index < |leaves|
    ensures p.Shaped(h.arity, depth)
  {
    MerkleProof(
      leaves[index],
      seq(depth, l requires 0 <= l < depth => Children(h, leaves, l, Ancestor(h.arity, index, l + 1))),
      seq(depth, l requires 0 <= l < depth => Ancestor(h.arity, index, l) % h.arity),
      Root(h, depth, leaves))
  }

  lemma IssuedProofStep<E>(h: Hasher<E>, depth: nat, leaves: seq<E>, index: nat, level: nat)
    requires h.Valid() && index < |leaves| && level < depth
    ensures var p, idx := IssuedProof(h, depth, leaves, index), Ancestor(h.arity, index, level);
            && p.path[..level + 1] == p.path[..level] + [idx % h.arity]
            && p.siblings[..level + 1] == p.siblings[..level] + [Children(h, leaves, level, Quotient(idx, h.arity))]
  {
  }

  /** A node sits in the row below its parent, at its index modulo the arity. */
  lemma OwnPlaceInRow<E>(h: Hasher<E>, leaves: seq<E>, level: nat, a: nat)
    requires h.Valid()
    ensures Children(h, leaves, level, Quotient(a, h.arity))[a % h.arity] == Node(h, leaves, level, a)
  {
    Recombine(a, h.arity);
  }

  /** Folding an issued proof walks up the ancestors of its leaf. */
  lemma {:induction false} IssuedProofFolds<E>(h: Hasher<E>, depth: nat, leaves: seq<E>, index: nat, level: nat)
    requires h.Valid() && index < |leaves| && level <= depth
    ensures FoldTo(h, IssuedProof(h, depth, leaves, index), level) ==
        Node(h, leaves, level, Ancestor(h.arity, index, level))
  {
    if level > 0 {
      IssuedProofFolds(h, depth, leaves, index, level - 1);
      var p := IssuedProof(h, depth, leaves, index);
      OwnPlaceInRow(h, leaves, level - 1, Ancestor(h.arity, index, level - 1));
      assert ProofRow(h, p, level - 1) == p.siblings[level - 1];
    }
  }

  /** A tree with at most `arity^depth` leaves has the root as the ancestor of every leaf. */
  lemma RootIsAncestor(arity: nat, depth: nat, n: nat, i: nat)
    requires arity > 0 && i < n <= Pow(arity, depth)
    ensures Ancestor(arity, i, depth) == 0
  {
    AncestorClosed(arity, i, depth);
    BelowFloorDiv(0, i, Pow(arity, depth));
  }

  /** Every issued proof verifies. */
  lemma IssuedProofVerifies<E>(h: Hasher<E>, depth: nat, leaves: seq<E>, index: nat)
    requires h.Valid() && index < |leaves| <= Pow(h.arity, depth)
    ensures var p := IssuedProof(h, depth, leaves, index);
            && FoldTo(h, p, depth) == p.root == Root(h, depth, leaves)
            && p.leaf == leaves[index]
            && PathNode(h.arity, p.path, 0) == index
  {
    IssuedProofFolds(h, depth, leaves, index, depth);
    RootIsAncestor(h.arity, depth, |leaves|, index);
    IssuedPathIndex(h, depth, leaves, index, 0);
  }

  /** The rows and the path of an issued proof, read off the tree: nested divisions are one by the power. */
  lemma IssuedProofReads<E>(h: Hasher<E>, depth: nat, leaves: seq<E>, index: nat, level: nat, j: nat)
    requires h.Valid() && index < |leaves| && level < depth && j < h.arity
    ensures Pow(h.arity, level) > 0 && Pow(h.arity, level + 1) > 0
    ensures var p := IssuedProof(h, depth, leaves, index);
            var node, parent := Quotient(index, Pow(h.arity, level)), Quotient(index, Pow(h.arity, level + 1));
            && p.path[level] == node % h.arity
            && p.siblings[level][j] == Node(h, leaves, level, parent * h.arity + j)
  {
    AncestorClosed(h.arity, index, level);
    AncestorClosed(h.arity, index, level + 1);
    ReadsAt(h, depth, leaves, index, level, j, Ancestor(h.arity, index, level), Ancestor(h.arity, index, level + 1));
  }

  lemma ReadsAt<E>(h: Hasher<E>, depth: nat, leaves: seq<E>, index: nat, level: nat, j: nat, node: nat, parent: nat)
    requires h.Valid() && index < |leaves| && level < depth && j < h.arity
    requires node == Ancestor(h.arity, index, level) && parent == Ancestor(h.arity, index, level + 1)
    ensures var p := IssuedProof(h, depth, leaves, index);
            p.path[level] == node % h.arity && p.siblings[level][j] == Node(h, leaves, level, parent * h.arity + j)
  {
    assert IssuedProof(h, depth, leaves, index).siblings[level] == Children(h, leaves, level, parent);
  }

  // ---------- binding ----------

  /** The number of the node at `level` that the path leads to, from the root downwards. */
  function PathNode(arity: nat, path: seq<nat>, level: nat): nat
    requires level <= |path|
    decreases |path| - level
  {
    if level == |path| then 0 else PathNode(arity, path, level + 1) * arity + path[level]
  }

  /** `path[0] + path[1] * arity + ... + path[n - 1] * arity^(n - 1)`. */
  function PathSum(arity: nat, path: seq<nat>, n: nat): nat
    requires n <= |path|
  {
    if n == 0 then 0 else PathSum(arity, path, n - 1) + path[n - 1] * Pow(arity, n - 1)
  }

  /** The leaf a path leads to is the path read as a number in base `arity`, lowest digit first. */
  lemma PathIndexIsSum(arity: nat, path: seq<nat>)
    ensures PathNode(arity, path, 0) == PathSum(arity, path, |path|)
  {
    PathSumFrom(arity, path, 0);
  }

  lemma Unfold(q: int, a: int, d: int, w: int)
    ensures (q * a + d) * w == d * w + q * (a * w)
  {
  }

  lemma {:induction false} PathSumFrom(arity: nat, path: seq<nat>, n: nat)
    requires n <= |path|
    ensures PathSum(arity, path, n) + PathNode(arity, path, n) * Pow(arity, n) == PathSum(arity, path, |path|)
    decreases |path| - n
  {
    if n < |path| {
      PathSumFrom(arity, path, n + 1);
      Unfold(PathNode(arity, path, n + 1), arity, path[n], Pow(arity, n));
    }
  }

  lemma {:induction false} IssuedPathIndex<E>(h: Hasher<E>, depth: nat, leaves: seq<E>, index: nat, level: nat)
    requires h.Valid() && index < |leaves| <= Pow(h.arity, depth) && level <= depth
    ensures PathNode(h.arity, IssuedProof(h, depth, leaves, index).path, level) == Ancestor(h.arity, index, level)
    decreases depth - level
  {
    if level == depth {
      RootIsAncestor(h.arity, depth, |leaves|, index);
    } else {
      IssuedPathIndex(h, depth, leaves, index, level + 1);
      Recombine(Ancestor(h.arity, index, level), h.arity);
    }
  }

  datatype Collision<E> = NoCollision | Collision(fromProof: seq<E>, fromTree: seq<E>)

  /** Walks down from the node at `level` and stops at the first row where proof and tree differ. */
  function FindCollision<E(==)>(h: Hasher<E>, leaves: seq<E>, p: MerkleProof<E>, level: nat): Collision<E>
    requires p.Shaped(h.arity, |p.path|) && level <= |p.path|
  {
    if level == 0 then NoCollision
    else
      var mine := ProofRow(h, p, level - 1);
      var tree := Children(h, leaves, level - 1, PathNode(h.arity, p.path, level));
      if mine != tree then Collision(mine, tree) else FindCollision(h, leaves, p, level - 1)
  }

  /**
   A proof that folds to the tree's node at `level` either carries the padded leaf its path points
   at, or exposes two different rows with the same hash.
   */
  lemma {:induction false} BindingBelow<E>(h: Hasher<E>, leaves: seq<E>, p: MerkleProof<E>, level: nat)
    requires p.Shaped(h.arity, |p.path|) && level <= |p.path|
    requires FoldTo(h, p, level) == Node(h, leaves, level, PathNode(h.arity, p.path, level))
    ensures match FindCollision(h, leaves, p, level)
      case NoCollision => p.leaf == PaddedLeaf(h, leaves, PathNode(h.arity, p.path, 0))
      case Collision(mine, tree) =>
        mine != tree && |mine| == |tree| == h.arity && h.hash(mine) == h.hash(tree)
  {
    if level > 0 {
      var mine := ProofRow(h, p, level - 1);
      var tree := Children(h, leaves, level - 1, PathNode(h.arity, p.path, level));
      if mine == tree {
        assert mine[p.path[level - 1]] == FoldTo(h, p, level - 1);
        assert tree[p.path[level - 1]] == Node(h, leaves, level - 1, PathNode(h.arity, p.path, level - 1));
        BindingBelow(h, leaves, p, level - 1);
      }
    }
  }

  /**
   A proof that verifies against a tree's root either proves the padded leaf at the index its path
   spells in base `arity`, or exposes a collision. Nothing is assumed of the hash.
   */
  lemma Binding<E>(h: Hasher<E>, depth: nat, leaves: seq<E>, p: MerkleProof<E>)
    requires p.Shaped(h.arity, depth)
    requires FoldTo(h, p, depth) == Root(h, depth, leaves)
    ensures match FindCollision(h, leaves, p, depth)
      case NoCollision => p.leaf == PaddedLeaf(h, leaves, PathSum(h.arity, p.path, depth))
      case Collision(mine, tree) =>
        mine != tree && |mine| == |tree| == h.arity && h.hash(mine) == h.hash(tree)
  {
    BindingBelow(h, leaves, p, depth);
    PathIndexIsSum(h.arity, p.path);
  }

  // ---------- two trees ----------

  /** Walks down from an ancestor of a leaf and stops at the first row in which the two trees differ. */
  function TreeCollision<E(==)>(h: Hasher<E>, a: seq<E>, b: seq<E>, level: nat, leaf: nat): Collision<E>
    requires h.Valid()
  {
    if level == 0 then NoCollision
    else
      var parent := Ancestor(h.arity, leaf, level);
      var x, y := Children(h, a, level - 1, parent), Children(h, b, level - 1, parent);
      if x != y then Collision(x, y) else TreeCollision(h, a, b, level - 1, leaf)
  }

  /**
   Two trees that agree on an ancestor of a leaf either agree on the leaf, or expose two different
   rows with the same hash. Nothing is assumed of the hash.
   */
  lemma {:induction false} EqualNodesEqualLeaves<E>(h: Hasher<E>, a: seq<E>, b: seq<E>, level: nat, leaf: nat)
    requires h.Valid()
    requires Node(h, a, level, Ancestor(h.arity, leaf, level)) == Node(h, b, level, Ancestor(h.arity, leaf, level))
    ensures match TreeCollision(h, a, b, level, leaf)
      case NoCollision => PaddedLeaf(h, a, leaf) == PaddedLeaf(h, b, leaf)
      case Collision(x, y) => x != y && |x| == |y| == h.arity && h.hash(x) == h.hash(y)
  {
    if level > 0 {
      var parent, child := Ancestor(h.arity, leaf, level), Ancestor(h.arity, leaf, level - 1);
      if Children(h, a, level - 1, parent) == Children(h, b, level - 1, parent) {
        OwnPlaceInRow(h, a, level - 1, child);
        OwnPlaceInRow(h, b, level - 1, child);
        EqualNodesEqualLeaves(h, a, b, level - 1, leaf);
      }
    }
  }

  /** Two trees of one depth with equal roots have equal padded leaves, or expose a collision. */
  lemma EqualRootsEqualLeaves<E>(h: Hasher<E>, depth: nat, a: seq<E>, b: seq<E>, leaf: nat)
    requires h.Valid() && leaf < Pow(h.arity, depth) && Root(h, depth, a) == Root(h, depth, b)
    ensures match TreeCollision(h, a, b, depth, leaf)
      case NoCollision => PaddedLeaf(h, a, leaf) == PaddedLeaf(h, b, leaf)
      case Collision(x, y) => x != y && |x| == |y| == h.arity && h.hash(x) == h.hash(y)
  {
    RootIsAncestor(h.arity, depth, Pow(h.arity, depth), leaf);
    EqualNodesEqualLeaves(h, a, b, depth, leaf);
  }

  // ---------- binary trees ----------

  /** The nodes beside the path of a binary proof. */
  function SiblingPaths<E>(p: MerkleProof<E>): (elements: seq<E>)
    requires p.Shaped(2, |p.path|)
  {
    seq(|p.path|, l requires 0 <= l < |p.path| => p.siblings[l][1 - p.path[l]])
  }

  /** The fold the withdrawal circuit is given: one sibling and one left/right bit per level. */
  function CircuitFold<E>(h: Hasher<E>, leaf: E, elements: seq<E>, bits: seq<nat>, level: nat): E
    requires |elements| == |bits| && level <= |bits|
  {
    if level == 0 then leaf
    else
      var node := CircuitFold(h, leaf, elements, bits, level - 1);
      if bits[level - 1] == 0 then h.hash([node, elements[level - 1]]) else h.hash([elements[level - 1], node])
  }

  /** Both forms of a binary proof reach the same node at every level. */
  lemma {:induction false} CircuitFoldAgrees<E>(h: Hasher<E>, p: MerkleProof<E>, level: nat)
    requires h.arity == 2 && p.Shaped(2, |p.path|) && level <= |p.path|
    ensures CircuitFold(h, p.leaf, SiblingPaths(p), p.path, level) == FoldTo(h, p, level)
  {
    if level > 0 {
      CircuitFoldAgrees(h, p, level - 1);
      var node, sibling := FoldTo(h, p, level - 1), SiblingPaths(p)[level - 1];
      assert ProofRow(h, p, level - 1) == if p.path[level - 1] == 0 then [node, sibling] else [sibling, node];
    }
  }

  /** The circuit form of an issued binary proof reaches the tree's root. */
  lemma IssuedCircuitFold<E>(h: Hasher<E>, depth: nat, leaves: seq<E>, index: nat)
    requires h.arity == 2 && index < |leaves| <= Pow(2, depth)
    ensures var p := IssuedProof(h, depth, leaves, index);
            CircuitFold(h, leaves[index], SiblingPaths(p), p.path, depth) == Root(h, depth, leaves)
  {
    IssuedProofVerifies(h, depth, leaves, index);
    CircuitFoldAgrees(h, IssuedProof(h, depth, leaves, index), depth);
  }
}
