/** The incremental Merkle tree: rows stored sparsely, re-hashed only above the leaves that change. */
module MerkleTrees {
  import opened Wrappers
  import opened Arithmetic
  import opened MerkleSpec
  import opened MerkleProofs

  datatype MerkleTreeError = TreeFull | MissingLeaf | IndexOutOfBounds(index: nat)

  /** The chunk followed by as many copies of `zero` as a row of `arity` needs. */
  function PadChunk<E>(arity: nat, chunk: seq<E>, zero: E): (row: seq<E>)
    ensures |row| == arity
    ensures forall j :: 0 <= j < arity ==> row[j] == if j < |chunk| then chunk[j] else zero
  {
    seq(arity, j requires 0 <= j < arity => if j < |chunk| then chunk[j] else zero)
  }

  /** The chunk of at most `arity` children that starts at `from`. */
  function Chunk<E>(arity: nat, children: seq<E>, from: nat): (chunk: seq<E>)
    requires from < |children|
  {
    children[from..Min(from + arity, |children|)]
  }

  /** What slot `k` of the parents ends up holding: slots without a chunk keep their value. */
  function HashedSlot<E>(h: Hasher<E>, children: seq<E>, parents: seq<E>, zero: E, k: nat): E
    requires k < |parents|
  {
    if HasChunk(h.arity, children, k)
    then h.hash(PadChunk(h.arity, Chunk(h.arity, children, k * h.arity), zero))
    else parents[k]
  }

  method ZeroHashes<E>(h: Hasher<E>, levels: nat) returns (zeros: seq<E>)
    ensures |zeros| == levels + 1
    ensures forall l :: 0 <= l <= levels ==> zeros[l] == ZeroHash(h, l)
  {
    zeros := [h.zero];
    for i := 1 to levels + 1
      invariant |zeros| == i
      invariant forall l :: 0 <= l < i ==> zeros[l] == ZeroHash(h, l)
    {
      var child := zeros[i - 1];
      assert seq(h.arity, _ => child) == seq(h.arity, _ => ZeroHash(h, i - 1));
      var parent := h.hash(seq(h.arity, _ => child));
      zeros := zeros + [parent];
    }
  }

  /** `n` of the slots have a chunk, the first ones: as many as there are chunks, if there are that many parents. */
  ghost predicate HaveChunks<E>(arity: nat, children: seq<E>, parents: seq<E>, n: nat) {
    n <= |parents|
    && forall k: nat {:trigger HasChunk(arity, children, k)} :: k < |parents| ==>
      (k < n <==> HasChunk(arity, children, k))
  }

  predicate HasChunk<E>(arity: nat, children: seq<E>, k: nat) { k * arity < |children| }

  lemma CountChunks<E>(arity: nat, children: seq<E>, parents: seq<E>) returns (n: nat)
    requires arity > 0
    ensures HaveChunks(arity, children, parents, n) && n == Min(|parents|, CeilDiv(|children|, arity))
  {
    n := Min(|parents|, CeilDiv(|children|, arity));
    forall k: nat | k < |parents|
      ensures k < n <==> HasChunk(arity, children, k)
    {
      BelowCeilDiv(k, |children|, arity);
    }
  }

  lemma {:induction false} FirstSlots<E>(parents: seq<E>, n: nat)
    requires n <= |parents|
    ensures |set k {:trigger parents[k]} | 0 <= k < n| == n
  {
    if n > 0 {
      FirstSlots(parents, n - 1);
      assert (set k {:trigger parents[k]} | 0 <= k < n) == (set k {:trigger parents[k]} | 0 <= k < n - 1) + {n - 1};
    }
  }

  /**
   Fills the slots of one level in their order, or in an arbitrary one when the tree hashes in
   parallel and the level has `threshold` parents or more. `calls` counts the hashes.
   */
  method HashLevel<E>(h: Hasher<E>, children: seq<E>, parents: seq<E>, zero: E, parallel: bool, threshold: nat)
    returns (hashed: seq<E>, ghost calls: nat)
    requires h.Valid()
    ensures |hashed| == |parents|
    ensures forall k :: 0 <= k < |parents| ==> hashed[k] == HashedSlot(h, children, parents, zero, k)
    ensures calls == Min(|parents|, CeilDiv(|children|, h.arity))
  {
    if parallel && |parents| >= threshold {
      hashed, calls := HashInAnyOrder(h, children, parents, zero);
      return;
    }

    calls := CountChunks(h.arity, children, parents);
    ghost var slots := calls;
    hashed, calls := parents, 0;
    var k := 0;
    while k < |parents| && HasChunk(h.arity, children, k)
      invariant 0 <= k <= slots && calls == k && |hashed| == |parents|
      invariant forall i :: 0 <= i < |parents| ==>
        hashed[i] == if i < k then HashedSlot(h, children, parents, zero, i) else parents[i]
    {
      hashed := hashed[k := h.hash(PadChunk(h.arity, Chunk(h.arity, children, k * h.arity), zero))];
      k, calls := k + 1, calls + 1;
    }
    assert k < |parents| ==> !HasChunk(h.arity, children, k);
    assert forall i :: k <= i < |parents| ==> !HasChunk(h.arity, children, i);
  }

  /** The parallel half: each slot with a chunk is filled once, in no particular order. */
  method HashInAnyOrder<E>(h: Hasher<E>, children: seq<E>, parents: seq<E>, zero: E)
    returns (hashed: seq<E>, ghost calls: nat)
    requires h.Valid()
    ensures |hashed| == |parents|
    ensures forall k :: 0 <= k < |parents| ==> hashed[k] == HashedSlot(h, children, parents, zero, k)
    ensures calls == Min(|parents|, CeilDiv(|children|, h.arity))
  {
    calls := CountChunks(h.arity, children, parents);
    ghost var slots := calls;
    var waiting := set k {:trigger parents[k]} | 0 <= k < |parents| && HasChunk(h.arity, children, k);
    assert waiting == set k {:trigger parents[k]} | 0 <= k < slots;
    FirstSlots(parents, slots);
    hashed, calls := parents, 0;
    while waiting != {}
      invariant forall k :: k in waiting ==> 0 <= k < |parents| && HasChunk(h.arity, children, k)
      invariant |hashed| == |parents|
      invariant forall k :: 0 <= k < |parents| ==>
        hashed[k] == if k in waiting then parents[k] else HashedSlot(h, children, parents, zero, k)
      invariant calls + |waiting| == slots
      decreases waiting
    {
      var k :| k in waiting;
      waiting := waiting - {k};
      hashed := hashed[k := h.hash(PadChunk(h.arity, Chunk(h.arity, children, k * h.arity), zero))];
      calls := calls + 1;
    }
  }

  /** Hashing the children from `start * arity` on computes the parents from `start` on. */
  lemma HashedSlotIsNode<E>(h: Hasher<E>, leaves: seq<E>, level: nat, start: nat, parents: seq<E>, k: nat)
    requires h.Valid()
    requires k < |parents|
    requires start * h.arity <= RowLen(h.arity, |leaves|, level)
    requires start + k < RowLen(h.arity, |leaves|, level + 1)
    ensures HashedSlot(h, Row(h, leaves, level)[start * h.arity..], parents, ZeroHash(h, level), k)
         == Node(h, leaves, level + 1, start + k)
  {
    var row := Row(h, leaves, level);
    BelowCeilDiv(start + k, |row|, h.arity);
    MulDistribute(start, k, h.arity);
    PaddedIsChildren(h, leaves, level, start * h.arity, k * h.arity, start + k);
  }

  /** A chunk of the row of `leaves`, padded, is the row of children below the parent it belongs to. */
  lemma PaddedIsChildren<E>(h: Hasher<E>, leaves: seq<E>, level: nat, first: nat, from: nat, parent: nat)
    requires h.Valid() && first + from == parent * h.arity < RowLen(h.arity, |leaves|, level)
    ensures PadChunk(h.arity, Chunk(h.arity, Row(h, leaves, level)[first..], from), ZeroHash(h, level))
         == Children(h, leaves, level, parent)
  {
    var row := Row(h, leaves, level);
    var chunk := Chunk(h.arity, row[first..], from);
    var padded, full := PadChunk(h.arity, chunk, ZeroHash(h, level)), Children(h, leaves, level, parent);
    forall j | 0 <= j < h.arity
      ensures padded[j] == full[j]
    {
      var i := first + from + j;
      assert full[j] == Node(h, leaves, level, i);
      if |row| <= i {
        NodePastEnd(h, leaves, level, i);
      } else {
        assert chunk[j] == row[i];
      }
    }
  }

  /** The leaves after a splice, or why it is refused. */
  function Spliced<E>(capacity: nat, leaves: seq<E>, index: nat, patch: seq<E>): Result<seq<E>, MerkleTreeError> {
    if patch == [] then Ok(leaves)
    else if index > |leaves| then Err(IndexOutOfBounds(index))
    else if Max(index + |patch|, |leaves|) > capacity then Err(TreeFull)
    else Ok(Overwrite(leaves, index, patch))
  }

  /** The leaves after a splice, one by one: those of the patch at their places, the others as they were. */
  lemma SplicedExact<E>(capacity: nat, leaves: seq<E>, index: nat, patch: seq<E>)
    requires patch != []
    ensures match Spliced(capacity, leaves, index, patch)
      case Ok(after) =>
        && index <= |leaves| && |after| == Max(|leaves|, index + |patch|) <= capacity
        && (forall j :: 0 <= j < |patch| ==> after[index + j] == patch[j])
        && (forall j :: 0 <= j < |leaves| && !(index <= j < index + |patch|) ==> after[j] == leaves[j])
      case Err(e) =>
        if index > |leaves| then e == IndexOutOfBounds(index)
        else e == TreeFull && Max(|leaves|, index + |patch|) > capacity
  {
  }

  /**
   Splicing two adjacent runs of leaves one after the other succeeds exactly when splicing them at
   once does, with the same leaves.
   */
  lemma SpliceInTwo<E>(capacity: nat, leaves: seq<E>, index: nat, a: seq<E>, b: seq<E>)
    requires |leaves| <= capacity
    ensures
      var whole, first := Spliced(capacity, leaves, index, a + b), Spliced(capacity, leaves, index, a);
      && (whole.Ok? <==> first.Ok? && Spliced(capacity, first.value, index + |a|, b).Ok?)
      && (whole.Ok? ==> Spliced(capacity, first.value, index + |a|, b) == whole)
  {
    if a == [] {
      assert a + b == b;
    } else if b == [] {
      assert a + b == a;
    } else if index <= |leaves| && Max(index + |a| + |b|, |leaves|) <= capacity {
      assert Overwrite(Overwrite(leaves, index, a), index + |a|, b) == Overwrite(leaves, index, a + b);
    }
  }

  /** A repeated splice changes nothing. */
  lemma SpliceTwice<E>(capacity: nat, leaves: seq<E>, index: nat, patch: seq<E>)
    requires |leaves| <= capacity && Spliced(capacity, leaves, index, patch).Ok?
    ensures var once := Spliced(capacity, leaves, index, patch).value;
            Spliced(capacity, once, index, patch) == Ok(once)
  {
    if patch != [] {
      var once := Spliced(capacity, leaves, index, patch).value;
      assert Overwrite(once, index, patch) == once;
    }
  }

  /** The leaves after inserting `patch` leaf by leaf, stopping at the first refusal. */
  function InsertedEach<E>(capacity: nat, leaves: seq<E>, index: nat, patch: seq<E>): Result<seq<E>, MerkleTreeError>
    decreases |patch|
  {
    if patch == [] then Ok(leaves)
    else
      match Spliced(capacity, leaves, index, [patch[0]])
      case Ok(next) => InsertedEach(capacity, next, index + 1, patch[1..])
      case Err(e) => Err(e)
  }

  /** Inserting leaves one at a time is splicing them at once, and is refused exactly when that is. */
  lemma {:induction false} InsertsAreSplice<E>(capacity: nat, leaves: seq<E>, index: nat, patch: seq<E>)
    requires |leaves| <= capacity
    ensures InsertedEach(capacity, leaves, index, patch).Ok? <==> Spliced(capacity, leaves, index, patch).Ok?
    ensures Spliced(capacity, leaves, index, patch).Ok? ==>
      InsertedEach(capacity, leaves, index, patch) == Spliced(capacity, leaves, index, patch)
    decreases |patch|
  {
    if patch != [] {
      assert patch == [patch[0]] + patch[1..];
      SpliceInTwo(capacity, leaves, index, [patch[0]], patch[1..]);
      var first := Spliced(capacity, leaves, index, [patch[0]]);
      if first.Ok? {
        InsertsAreSplice(capacity, first.value, index + 1, patch[1..]);
      }
    }
  }

  class MerkleTree<E> {
    const h: Hasher<E>
    const depth: nat
    /** The largest machine index, the value the capacity saturates at. */
    const maxIndex: nat
    /** Whether wide levels are hashed in parallel. */
    const parallel: bool
    /** One row a level, leaves first: row `l` is `Row(h, leaves, l)`, see `Valid`. */
    var nodes: seq<seq<E>>
    /** `zeros[l]` is `ZeroHash(h, l)`. */
    var zeros: seq<E>

    static const PARALLEL_THRESHOLD: nat := 256

    /** The stored rows are a function of the leaves alone. */
    ghost predicate Valid()
      reads this
    {
      && h.Valid()
      && |nodes| == depth + 1
      && nodes == Rows(h, depth, nodes[0])
      && |zeros| == depth + 1
      && (forall l :: 0 <= l <= depth ==> zeros[l] == ZeroHash(h, l))
      && |nodes[0]| <= Capacity()
    }

    function Capacity(): (c: nat)
      ensures c <= Pow(h.arity, depth) && c <= maxIndex
    {
      if Pow(h.arity, depth) <= maxIndex then Pow(h.arity, depth) else maxIndex
    }

    function Leaves(): seq<E>
      requires |nodes| > 0
      reads this
    {
      nodes[0]
    }

    constructor (h: Hasher<E>, depth: nat, maxIndex: nat, parallel: bool)
      requires h.Valid()
      ensures Valid() && Leaves() == []
      ensures this.h == h && this.depth == depth && this.maxIndex == maxIndex && this.parallel == parallel
    {
      this.h, this.depth, this.maxIndex, this.parallel := h, depth, maxIndex, parallel;
      nodes := seq(depth + 1, _ => []);
      var zs := ZeroHashes(h, depth);
      zeros := zs;
      new;
      forall l | 0 <= l <= depth ensures Row(h, [], l) == [] {
        EmptyRow(h.arity, l);
      }
    }

    /** The node at (`level`, `index`): the naive node, whether stored or past the end of its row. */
    function NodeAt(level: nat, index: nat): (node: E)
      requires Valid() && level <= depth
      reads this
      ensures node == Node(h, Leaves(), level, index)
    {
      if index < |nodes[level]| then nodes[level][index]
      else
        NodePastEnd(h, Leaves(), level, index);
        zeros[level]
    }

    function RootHash(): (root: E)
      requires Valid()
      reads this
      ensures root == Root(h, depth, Leaves())
    {
      NodeAt(depth, 0)
    }

    /** Reads the row of nodes at `level` below `parent`. */
    method RowBelow(level: nat, parent: nat) returns (row: seq<E>)
      requires Valid() && level <= depth
      ensures row == Children(h, Leaves(), level, parent)
    {
      ghost var children := Children(h, Leaves(), level, parent);
      row := [];
      for i := 0 to h.arity
        invariant row == children[..i]
      {
        row := row + [NodeAt(level, parent * h.arity + i)];
      }
    }

    method Proof(index: nat) returns (r: Result<MerkleProof<E>, MerkleTreeError>)
      requires Valid()
      ensures index < |Leaves()| ==> r == Ok(IssuedProof(h, depth, Leaves(), index))
      ensures index >= |Leaves()| ==> r == Err(IndexOutOfBounds(index))
    {
      if index >= |nodes[0]| {
        return Err(IndexOutOfBounds(index));
      }
      ghost var issued := IssuedProof(h, depth, Leaves(), index);
      var path: seq<nat>, siblings, idx := [], [], index;
      for level := 0 to depth
        invariant idx == Ancestor(h.arity, index, level)
        invariant path == issued.path[..level]
        invariant siblings == issued.siblings[..level]
      {
        IssuedProofStep(h, depth, Leaves(), index, level);
        var parent := Quotient(idx, h.arity);
        path := path + [idx % h.arity];
        var row := RowBelow(level, parent);
        siblings := siblings + [row];
        idx := parent;
      }
      assert path == issued.path && siblings == issued.siblings;
      r := Ok(MerkleProof(nodes[0][index], siblings, path, RootHash()));
    }

    method Insert(index: nat, leaf: E) returns (r: Result<(), MerkleTreeError>)
      requires Valid()
      modifies this`nodes
      ensures Valid()
      ensures match Spliced(Capacity(), old(Leaves()), index, [leaf])
        case Ok(leaves) => r == Ok(()) && Leaves() == leaves
        case Err(e) => r == Err(e) && nodes == old(nodes)
      ensures r.Ok? ==> |Leaves()| == Max(old(|Leaves()|), index + 1) && Leaves()[index] == leaf
      ensures r.Ok? ==> forall j :: 0 <= j < old(|Leaves()|) && j != index ==> Leaves()[j] == old(Leaves()[j])
      ensures r == Err(IndexOutOfBounds(index)) <==> index > old(|Leaves()|)
      ensures r == Err(TreeFull) <==> index == old(|Leaves()|) >= Capacity()
    {
      var outcome, _ := Splice(index, [leaf]);
      r := outcome;
    }

    /** `hashed` counts the parents hashed. */
    method Splice(index: nat, leaves: seq<E>) returns (r: Result<(), MerkleTreeError>, ghost hashed: nat)
      requires Valid()
      modifies this`nodes
      ensures Valid()
      ensures match Spliced(Capacity(), old(Leaves()), index, leaves)
        case Ok(spliced) => r == Ok(()) && Leaves() == spliced
        case Err(e) => r == Err(e) && nodes == old(nodes)
      ensures leaves == [] ==> r == Ok(()) && nodes == old(nodes)
      ensures leaves != [] && r.Ok? ==> |Leaves()| == Max(old(|Leaves()|), index + |leaves|)
      ensures leaves != [] && r.Ok? ==> forall j :: 0 <= j < |leaves| ==> Leaves()[index + j] == leaves[j]
      ensures leaves != [] && r.Ok? ==> forall j :: 0 <= j < old(|Leaves()|) && !(index <= j < index + |leaves|) ==>
        Leaves()[j] == old(Leaves()[j])
      ensures leaves != [] ==> (r == Err(IndexOutOfBounds(index)) <==> index > old(|Leaves()|))
      ensures leaves != [] ==>
        (r == Err(TreeFull) <==> index <= old(|Leaves()|) && Max(old(|Leaves()|), index + |leaves|) > Capacity())
      ensures hashed == if r.Ok? && leaves != [] then WindowCost(h.arity, index, index + |leaves|, depth) else 0
    {
      hashed := 0;
      if leaves == [] {
        return Ok(()), 0;
      }
      SplicedExact(Capacity(), Leaves(), index, leaves);
      var len := |nodes[0]|;
      if index > len {
        return Err(IndexOutOfBounds(index)), 0;
      }
      var newLen := Max(index + |leaves|, len);
      if newLen > Capacity() {
        return Err(TreeFull), 0;
      }

      ghost var before := nodes[0];
      var resized := Resize(nodes[0], newLen, zeros[0]);
      ResizedLeaves(h, before, index, leaves, zeros[0]);
      nodes := nodes[0 := resized[..index] + leaves + resized[index + |leaves|..]];
      hashed := Rehash(before, index, leaves);
      r := Ok(());
    }

    /** Re-hashes the ancestors of the leaves just written, level by level: the loop of `splice`. */
    method Rehash(ghost before: seq<E>, index: nat, leaves: seq<E>) returns (ghost hashed: nat)
      requires h.Valid() && index <= |before| && leaves != []
      requires |zeros| == depth + 1
      requires nodes == Rows(h, depth, before)[0 := Overwrite(before, index, leaves)]
      requires forall l :: 0 <= l <= depth ==> zeros[l] == ZeroHash(h, l)
      modifies this`nodes
      ensures nodes == Rows(h, depth, Overwrite(before, index, leaves))
      ensures hashed == WindowCost(h.arity, index, index + |leaves|, depth)
    {
      hashed := 0;
      ResizedLeaves(h, before, index, leaves, h.zero);
      ghost var after := Overwrite(before, index, leaves);
      var start, end := index, index + |leaves|;
      for level := 1 to depth + 1
        invariant |nodes| == depth + 1
        invariant start == Ancestor(h.arity, index, level - 1)
        invariant end == RowLen(h.arity, index + |leaves|, level - 1)
        invariant |nodes| == depth + 1
        invariant forall l :: 0 <= l < level ==> nodes[l] == Row(h, after, l)
        invariant forall l :: level <= l <= depth ==> nodes[l] == Row(h, before, l)
        invariant hashed == WindowCost(h.arity, index, index + |leaves|, level - 1)
      {
        start, end := Quotient(start, h.arity), CeilDiv(end, h.arity);
        var calls := RehashLevel(before, index, leaves, level, start, end);
        hashed := hashed + calls;
      }
    }

    /** The body of that loop: grows row `level` to cover the window and re-hashes `[start, end)` of it. */
    method RehashLevel(ghost before: seq<E>, ghost index: nat, ghost leaves: seq<E>, level: nat, start: nat, end: nat)
      returns (ghost hashed: nat)
      requires h.Valid() && index <= |before| && leaves != [] && 1 <= level <= depth
      requires |nodes| == depth + 1 && |zeros| == depth + 1
      requires start == Ancestor(h.arity, index, level)
      requires end == RowLen(h.arity, index + |leaves|, level)
      requires nodes[level - 1] == Row(h, Overwrite(before, index, leaves), level - 1)
      requires nodes[level] == Row(h, before, level)
      requires forall l :: 0 <= l <= depth ==> zeros[l] == ZeroHash(h, l)
      modifies this`nodes
      ensures start < end
      ensures nodes == old(nodes)[level := Row(h, Overwrite(before, index, leaves), level)]
      ensures hashed == end - start
    {
      Window(h.arity, before, index, leaves, level);
      var levelLen := Max(end, |nodes[level]|);
      var row := Resize(nodes[level], levelLen, zeros[level]);
      var window, calls := HashLevel(h, nodes[level - 1][start * h.arity..], row[start..end], zeros[level - 1],
                              parallel, PARALLEL_THRESHOLD);
      SplicedRow(h, before, index, leaves, level, row, window);
      WindowSlots(h.arity, |nodes[level - 1]|, start, end);
      hashed := calls;
      nodes := nodes[level := row[..start] + window + row[end..]];
    }
  }

  /** A tree of the given leaves, or the refusal of the one splice that fills it. */
  method FromLeaves<E>(h: Hasher<E>, depth: nat, maxIndex: nat, parallel: bool, leaves: seq<E>)
    returns (r: Result<MerkleTree<E>, MerkleTreeError>)
    requires h.Valid()
    ensures r.Ok? <==> |leaves| <= Min(Pow(h.arity, depth), maxIndex)
    ensures r.Ok? ==>
      fresh(r.value) && r.value.Valid() && r.value.Leaves() == leaves
      && r.value.h == h && r.value.depth == depth && r.value.maxIndex == maxIndex
    ensures r.Err? ==> r == Err(TreeFull)
  {
    var tree := new MerkleTree(h, depth, maxIndex, parallel);
    var outcome, _ := tree.Splice(0, leaves);
    if outcome.Err? {
      return Err(outcome.error);
    }
    assert leaves != [] ==> Overwrite([], 0, leaves) == leaves;
    r := Ok(tree);
  }

  /** Rust's `Vec::resize`. */
  function Resize<E>(s: seq<E>, n: nat, fill: E): (r: seq<E>)
    ensures |r| == n
    ensures forall i :: 0 <= i < n ==> r[i] == if i < |s| then s[i] else fill
  {
    if n <= |s| then s[..n] else s + seq(n - |s|, _ => fill)
  }

  lemma ResizedLeaves<E>(h: Hasher<E>, leaves: seq<E>, index: nat, patch: seq<E>, fill: E)
    requires h.Valid() && index <= |leaves|
    ensures var resized := Resize(leaves, Max(index + |patch|, |leaves|), fill);
            && resized[..index] + patch + resized[index + |patch|..] == Overwrite(leaves, index, patch)
            && Overwrite(leaves, index, patch) == Row(h, Overwrite(leaves, index, patch), 0)
  {
    var resized := Resize(leaves, Max(index + |patch|, |leaves|), fill);
    assert resized[..index] == leaves[..index];
    assert resized[index + |patch|..] == if index + |patch| < |leaves| then leaves[index + |patch|..] else [];
    var after := Overwrite(leaves, index, patch);
    assert forall i :: 0 <= i < |after| ==> Row(h, after, 0)[i] == after[i];
  }

  /** The window re-hashed at `level` is in bounds, and nothing before it is new. */
  lemma {:induction false} Window<E>(arity: nat, before: seq<E>, index: nat, patch: seq<E>, level: nat)
    requires arity > 0 && level > 0 && index <= |before| && patch != []
    ensures var start, end := Ancestor(arity, index, level), RowLen(arity, index + |patch|, level);
            && start < end
            && start <= RowLen(arity, |before|, level)
            && RowLen(arity, |Overwrite(before, index, patch)|, level) == Max(end, RowLen(arity, |before|, level))
            && start * arity <= RowLen(arity, |Overwrite(before, index, patch)|, level - 1)
  {
    var n := |Overwrite(before, index, patch)|;
    AncestorWithinRow(arity, index, index + |patch|, level);
    AncestorWithinRow(arity, index, |before|, level);
    AncestorWithinRow(arity, index, n, level - 1);
    RowLenMax(arity, index + |patch|, |before|, level);
    AncestorFirstChild(arity, index, level);
  }

  /** Every slot of a window that ends within the new row has a chunk. */
  lemma WindowSlots(arity: nat, n: nat, start: nat, end: nat)
    requires arity > 0 && start <= end <= CeilDiv(n, arity) && start * arity <= n
    ensures end - start <= CeilDiv(n - start * arity, arity)
  {
    if end > start {
      BelowCeilDiv(end - 1, n, arity);
      BelowCeilDiv(end - 1 - start, n - start * arity, arity);
      assert (end - 1 - start) * arity == (end - 1) * arity - start * arity;
    }
  }

  lemma UntouchedNode<E>(h: Hasher<E>, before: seq<E>, index: nat, patch: seq<E>, level: nat, i: nat)
    requires h.Valid() && index <= |before|
    requires i < Ancestor(h.arity, index, level) || RowLen(h.arity, index + |patch|, level) <= i
    ensures Node(h, before, level, i) == Node(h, Overwrite(before, index, patch), level, i)
  {
    NodeOutsideWindow(h, before, Overwrite(before, index, patch), index, index + |patch|, level, i);
  }

  /** Writing the re-hashed window into the old row gives the new row. */
  lemma SplicedRow<E>(h: Hasher<E>, before: seq<E>, index: nat, patch: seq<E>, level: nat, row: seq<E>, window: seq<E>)
    requires h.Valid() && level > 0 && index <= |before| && patch != []
    requires var start, end := Ancestor(h.arity, index, level), RowLen(h.arity, index + |patch|, level);
             && start < end
             && row == Resize(Row(h, before, level), Max(end, RowLen(h.arity, |before|, level)), ZeroHash(h, level))
             && |window| == end - start
             && start * h.arity <= RowLen(h.arity, |Overwrite(before, index, patch)|, level - 1)
             && (forall k :: 0 <= k < end - start ==>
                  window[k] == HashedSlot(h, Row(h, Overwrite(before, index, patch), level - 1)[start * h.arity..],
                                          row[start..end], ZeroHash(h, level - 1), k))
    ensures var start, end := Ancestor(h.arity, index, level), RowLen(h.arity, index + |patch|, level);
            row[..start] + window + row[end..] == Row(h, Overwrite(before, index, patch), level)
  {
    var start, end := Ancestor(h.arity, index, level), RowLen(h.arity, index + |patch|, level);
    var after := Overwrite(before, index, patch);
    Window(h.arity, before, index, patch, level);
    OutsideWindow(h, before, index, patch, level, row);
    forall k | 0 <= k < end - start
      ensures window[k] == Node(h, after, level, start + k)
    {
      HashedSlotIsNode(h, after, level - 1, start, row[start..end], k);
    }
    Paste(row, window, start, end, Row(h, after, level));
  }

  /** Outside its window the resized old row already is the new one. */
  lemma OutsideWindow<E>(h: Hasher<E>, before: seq<E>, index: nat, patch: seq<E>, level: nat, row: seq<E>)
    requires h.Valid() && level > 0 && index <= |before| && patch != []
    requires row == Resize(Row(h, before, level),
                           Max(RowLen(h.arity, index + |patch|, level), RowLen(h.arity, |before|, level)),
                           ZeroHash(h, level))
    ensures var low, high := Ancestor(h.arity, index, level), RowLen(h.arity, index + |patch|, level);
      forall i :: 0 <= i < |row| && !(low <= i < high) ==> row[i] == Node(h, Overwrite(before, index, patch), level, i)
  {
    Window(h.arity, before, index, patch, level);
    forall i | 0 <= i < |row| && !(Ancestor(h.arity, index, level) <= i < RowLen(h.arity, index + |patch|, level))
      ensures row[i] == Node(h, Overwrite(before, index, patch), level, i)
    {
      assert row[i] == Node(h, before, level, i);
      UntouchedNode(h, before, index, patch, level, i);
    }
  }

  /** A sequence that is right outside a window becomes right by pasting a right window. */
  lemma Paste<E>(row: seq<E>, window: seq<E>, start: nat, end: nat, want: seq<E>)
    requires start <= end <= |row| == |want| && |window| == end - start
    requires forall i :: 0 <= i < |row| && !(start <= i < end) ==> row[i] == want[i]
    requires forall k :: 0 <= k < end - start ==> window[k] == want[start + k]
    ensures row[..start] + window + row[end..] == want
  {
  }

  /** The proof of the first leaf equal to `leaf`. */
  method LeafProof<E(==)>(tree: MerkleTree<E>, leaf: E) returns (r: Result<MerkleProof<E>, MerkleTreeError>)
    requires tree.Valid()
    ensures leaf !in tree.Leaves() ==> r == Err(MissingLeaf)
    ensures leaf in tree.Leaves() ==>
      exists i :: 0 <= i < |tree.Leaves()| && tree.Leaves()[i] == leaf && leaf !in tree.Leaves()[..i]
        && r == Ok(IssuedProof(tree.h, tree.depth, tree.Leaves(), i))
  {
    for index := 0 to |tree.nodes[0]|
      invariant leaf !in tree.Leaves()[..index]
    {
      if tree.nodes[0][index] == leaf {
        r := tree.Proof(index);
        return;
      }
    }
    r := Err(MissingLeaf);
  }
}
