# Verified model of the Tornado Cash kit

A Dafny model of the parts of this repository whose correctness is hardest to see from one function:

- the incremental k-ary Merkle tree and its proofs (`MerkleSpec`, `MerkleProofs`, `MerkleTrees`);
- adaptive, concurrent log streaming: pacing, chunk queries, and the whole stream as a transition
  system under any schedule and any provider answers (`Pacing`, `ChunkQuery`, `LogStream`,
  `LogStreamRuns`, `LogStreamPacing`);
- Baby Jubjub arithmetic, the Pedersen hash and MiMC (`PrimeField`, `EdwardsCurve`, `Multiples`,
  `BabyJubjub`, `SignedWindows`, `WindowSums`, `Pedersen`, `PointBytes`, `ConcreteCurve`, `SmallCurve`,
  `Mimc`);
- note recovery, and the wallet protocol built on the next nonce (`PoolIndexes`, `GapScans`,
  `Recovery`, `Wallet`);
- event batches on their way into the tree (`Events`, `Saga`, `SagaLines`, `TreeSync`);
- decimal amounts and the printed form of a note (`Amounts`, `Notes`, `NoteForms`).

`Wrappers`, `MachineInts`, `Arithmetic`, `BlockRanges` and `Text` are shared helpers. Code that
changes state in the source is a class or a method here, proved against functions and predicates on
values; the properties below are lemmas about those. `dafny verify dfyconfig.toml` checks everything.

Conventions. A Merkle tree is generic in its arity (2 to 256), depth, element type and hash. A
provider is a function from blocks to logs, which is the assumption that the logs of `a..c` are those
of `a..b` followed by those of `b..c`; it may also refuse or rate limit at will. Time is a counter
that never runs backwards. Every locked call on the shared pacing state is one atomic step.

The curve. Four things are taken as hypotheses, collected in `ConcreteCurve.Trusted`: that the
integers modulo the given number have inverses (`Field.Valid`), that this number is the one the
source computes with, that 168696 is not a square modulo it, and that the twisted Edwards law is
associative. `Group` is the same for a curve with any coefficients, with 168700 replaced by any
square. Proved from them: closure, neutrality of (0, 1), that the law is defined for every two points
of the curve, and everything about multiples, decompression, the search for generators and the hash.
`SmallCurve.FourIsGroup` proves `Group` in full for a curve over the field of three elements, so the
hypotheses contradict neither each other nor the results.

Where the code says more or less than its own comments, the model follows the code:

- `mul_scalar` reads the magnitude of its argument only, so a negative scalar multiplies as its
  absolute value; its callers pass none (`Pedersen.ScalarsAreMultiples`);
- `multi_hash` returns one output when asked for none (`Mimc.MultiHash`);
- a note whose symbol or amount contains `-` prints to a string that does not parse back to it; parsing
  undoes printing for the other notes and only for those (`Notes.RoundTripIffDashFree`);
- recovery finds every note if and only if no two used nonces in a row are more than the gap limit
  apart (`Recovery.AllNotesIffChained`);
- the keychain's README (crates/tornadocash/keychain/README.md, line 11) promises a next nonce one past
  the highest one used in any pool. That holds under the same condition and no other
  (`Recovery.NextIsFreshIffChained`); after uses of 0 and `gap + 1` the answer is 1
  (`Recovery.UsedNoncePastGap`);
- syncing a range in two parts can succeed where syncing it at once fails: each part's deposits count
  up, but the second does not start where the first ends (`Saga.PartsWithoutWhole`). The whole
  succeeds exactly when both parts do and the deposits follow on (`Saga.SyncSplits`).

## Model

| member | source | states |
|---|---|---|
| MerkleTrees.MerkleTree.Splice | crates/merkle-tree/src/lib.rs:114-153 | After any splice the given leaves are at their places, the others as they were, and the length is the larger of the old one and the end of the splice; refused exactly when it starts past the end (checked first) or does not fit, and then no row changes. The stored rows are exactly those of the naive padded tree over the leaves (the class invariant), and the hash is called once for each node of the ancestor windows |
| MerkleTrees.MerkleTree.Rehash | crates/merkle-tree/src/lib.rs:133-150 | Re-hashing only the moving window turns the rows of the old leaves into the rows of the new leaves at every level, with as many hash calls as the windows have nodes |
| MerkleTrees.MerkleTree.RehashLevel | crates/merkle-tree/src/lib.rs:136-150 | One level: the window `[start, end)` is in bounds and, once grown and re-hashed with `end - start` calls of the hash, the row is the naive row of the new leaves |
| MerkleTrees.MerkleTree.Insert | crates/merkle-tree/src/lib.rs:105-107 | Replaces the leaf at an index in use or appends one at the end, keeping the others, or refuses without change, exactly past the end or when full |
| MerkleTrees.SplicedExact | crates/merkle-tree/src/lib.rs:114-131 | The leaves after a splice, or its refusal, index by index: what the lemmas about splices speak of is what the method does |
| MerkleTrees.MerkleTree.NodeAt | crates/merkle-tree/src/lib.rs:157-162 | For every level and index, stored or past the end of its row, the answer is the naive recursive hash of the zero-padded leaves |
| MerkleTrees.MerkleTree.RootHash | crates/merkle-tree/src/lib.rs:63-65 | The incrementally kept root is the full-rebuild root |
| MerkleTrees.MerkleTree.Proof | crates/merkle-tree/src/lib.rs:76-98 | Returns the path and full child rows of the leaf's ancestors, or the out-of-bounds error exactly past the last leaf |
| MerkleTrees.MerkleTree.constructor | crates/merkle-tree/src/lib.rs:42-53 | An empty tree satisfies the invariant |
| MerkleTrees.FromLeaves | crates/merkle-tree/src/lib.rs:56-60 | Succeeds exactly when the leaves fit the capacity (saturating at the machine's largest index), and then holds them |
| MerkleTrees.LeafProof | crates/merkle-tree/src/lib.rs:172-184 | The proof of the first equal leaf, or `MissingLeaf` exactly when there is none |
| MerkleTrees.HashLevel | crates/merkle-tree/src/lib.rs:209-229 | Sequentially or in any order, slot `k` ends as the hash of the padded chunk `k`, slots without a chunk keep their value, and the hash is called once for each slot that has a chunk |
| MerkleTrees.HashedSlotIsNode | crates/merkle-tree/src/lib.rs:209-234 | Hashing the children from `start * arity` on, the last chunk padded with the level's empty hash, gives the naive nodes from `start` on |
| MerkleTrees.SplicedRow | crates/merkle-tree/src/lib.rs:136-150 | Writing the re-hashed window into the resized old row gives the whole new row: nothing outside the window depended on the changed leaves |
| MerkleTrees.ZeroHashes | crates/merkle-tree/src/lib.rs:237-246 | Level `l` of the table is the hash of an empty subtree of height `l` |
| MerkleTrees.SpliceInTwo | crates/merkle-tree/src/lib.rs:114-131 | Two adjacent splices succeed exactly when the merged one does, with the same leaves, hence the same tree |
| MerkleTrees.SpliceTwice | crates/merkle-tree/src/lib.rs:109-131 | Repeating a splice changes nothing |
| MerkleTrees.InsertsAreSplice | crates/merkle-tree/src/lib.rs:105-131 | Inserting leaves one by one is one splice, and is refused exactly when that is |
| MerkleSpec.RowLenClosed | crates/merkle-tree/src/lib.rs:136-141 | Rounding up level by level keeps row `l` at exactly `ceil(len / arity^l)` nodes |
| MerkleSpec.AncestorClosed | crates/merkle-tree/src/lib.rs:137 | Dividing level by level reaches `floor(index / arity^l)` |
| MerkleSpec.NodePastEnd | crates/merkle-tree/src/lib.rs:155-162 | A node past the end of its row is the hash of an empty subtree |
| MerkleSpec.NodeOutsideWindow | crates/merkle-tree/src/lib.rs:133-149 | Changing leaves `[lo, hi)` changes no node outside their ancestors |
| MerkleSpec.PaddingInvisible | crates/merkle-tree/src/lib.rs:231-234 | Trailing empty leaves change no node |
| MerkleSpec.WindowCostBound | crates/merkle-tree/src/lib.rs:136-150 | A splice of `n >= 1` leaves hashes at least `depth` and at most `2 * depth + (n - 1) / (arity - 1)` parents, whatever the size of the tree |
| MerkleProofs.Verify | crates/merkle-tree/src/proof.rs:29-37 | Accepts exactly the proofs that fold to their root |
| MerkleProofs.IssuedProofVerifies | crates/merkle-tree/src/lib.rs:76-98 | Every proof a tree issues verifies against its root, and its path spells the leaf's index |
| MerkleProofs.IssuedProofReads | crates/merkle-tree/src/lib.rs:76-98 | The path entry at level `l` is `index / arity^l` modulo the arity, and the row there holds the `arity` nodes below `index / arity^(l+1)` |
| MerkleProofs.PathIndexIsSum | crates/merkle-tree/src/proof.rs:29-37 | The leaf a path leads to is the sum of `path[l] * arity^l` |
| MerkleProofs.Binding | crates/merkle-tree/src/proof.rs:29-37 | With no assumption on the hash: a proof that verifies against a tree's root carries the padded leaf its path names, or two different rows with one hash are extracted |
| MerkleProofs.EqualNodesEqualLeaves | crates/merkle-tree/src/hasher.rs:1-8 | With no assumption on the hash: where two trees agree in an ancestor of a leaf they agree in the padded leaf, or the walk down to it gives two different rows of `arity` elements with one hash |
| MerkleProofs.EqualRootsEqualLeaves | crates/merkle-tree/src/lib.rs:63-65 | The same from equal roots, for every leaf within the capacity |
| MerkleProofs.CircuitFoldAgrees | crates/merkle-tree/src/proof.rs:40-49 | For binary trees, folding with one sibling and one bit a level reaches the node the full-row fold reaches, at every level |
| MerkleProofs.IssuedCircuitFold | crates/tornadocash/core/src/withdrawal.rs:102-104 | The form handed to the circuit folds to the tree's root |
| Pacing.State.Shrink | crates/rpc-provider/src/events/streamed.rs:276-278 | The new state, and that the shrink is recorded for the task |
| Pacing.State.ClaimSlot | crates/rpc-provider/src/events/streamed.rs:280-289 | The slot and new state of `Pace.Claimed`, about which `SlotsSpaced` is proved |
| Pacing.State.Succeed | crates/rpc-provider/src/events/streamed.rs:291-295 | The new state: the back-off resets only outside a pause |
| Pacing.State.Pause | crates/rpc-provider/src/events/streamed.rs:297-301 | The new state: the pause only moves later, the back-off doubles up to its bound |
| Pacing.SlotsSpaced | crates/rpc-provider/src/events/streamed.rs:280-301 | Over every history of calls, each slot handed out is in the future and any two are at least one stagger apart, see `StaggerExact` |
| Pacing.StaggerExact | crates/rpc-provider/src/events/streamed.rs:245-246 | With `c` requests at once, one if none are allowed, the stagger is the whole `g` with `g * c <= base_delay < (g + 1) * c` |
| Pacing.SlotsSpread | crates/rpc-provider/src/events/streamed.rs:234-302 | Over every history any `c + 1` slots in a row span more than `base_delay - c` |
| Pacing.NextSlot | crates/rpc-provider/src/events/streamed.rs:280-289 | Two claims with no other call between them get slots exactly one stagger apart, unless the second comes after its slot |
| Pacing.DefaultSlots | crates/rpc-provider/src/events/streamed.rs:304-314 | With the default options two claims at 100 during a pause until 900 get 900 and 950 |
| Pacing.WaitsAreEarned | crates/rpc-provider/src/events/streamed.rs:280-301 | Over every history, the time requests are held back until is the end of an earlier pause plus at most one stagger for each claim since: without a pause nobody waits |
| Pacing.AllSlotsEarned | crates/rpc-provider/src/events/streamed.rs:280-301 | The same of every slot handed out |
| Pacing.PauseRespected | crates/rpc-provider/src/events/streamed.rs:280-301 | Over every history, a claim made after a pause gets a slot no earlier than the pause's end, or comes after that end |
| Pacing.DelayAfterPauses | crates/rpc-provider/src/events/streamed.rs:291-301 | After `k >= 1` pauses since the last reset the delay is `min(base * 2^k, max)` |
| Pacing.SizeShrinks | crates/rpc-provider/src/events/streamed.rs:276-278 | Over every history the chunk size never grows and never falls below 1 |
| Pacing.SizeExact | crates/rpc-provider/src/events/streamed.rs:276-278 | The chunk size is the least of the configured one and of all sizes asked for, each counted as at least 1 |
| ChunkQuery.Chain.LogsSplit | crates/rpc-provider/src/events/streamed.rs:239-244 | The one property assumed of a provider's logs, for every chain of blocks |
| ChunkQuery.QueryRange | crates/rpc-provider/src/events/streamed.rs:234-272 | Against any interference at its awaits: the range's logs, or an error. The trace of its locked calls with their arguments: one slot claimed for each request at the configured stagger, one pause at the time of the answer between requests, a reset on success and only then; requests follow one another and none is sent before its slot; at most `max_retries + 1` of them, and that many before a rate-limit error |
| ChunkQuery.QueryChunk | crates/rpc-provider/src/events/streamed.rs:200-231 | Ends after at most `2n - 1` range queries; on success the chunk's logs in block order with the served ranges tiling the chunk, one more than were halved; on failure the served ranges tile what is before the failed one, which has one block or was rate limited `max_retries + 1` times; each halving shrinks the shared size to its left half |
| ChunkQuery.InOrderServesOnce | crates/rpc-provider/src/events/streamed.rs:200-231 | Served ranges in order put every block of the chunk in exactly one of them |
| ChunkQuery.SplitTop | crates/rpc-provider/src/events/streamed.rs:222-227 | Pushing the right half and then the left half keeps the stack a cover of the unfetched blocks, at the price of one call |
| ChunkQuery.Halve | crates/rpc-provider/src/events/streamed.rs:222-227 | The halves go back on the stack, the left one on top, the cover is kept and the chunk size shrinks to the left half |
| ChunkQuery.ChunkRanges.Next | crates/rpc-provider/src/events/streamed.rs:319-342 | However the size changes between calls, each chunk starts where the last one ended and has exactly the size of the moment unless it ends the range; when there are no more, they cover the range |
| LogStream.TaskStepOk | crates/rpc-provider/src/events/streamed.rs:200-271 | Every step of a task keeps its logs equal to the chunk's logs so far, its stack a cover of the rest, its calls and requests within bounds, and the shared size from growing |
| LogStreamRuns.StepOk | crates/rpc-provider/src/events/streamed.rs:121-164 | Every step of the stream keeps its invariant, whoever moves and whatever the provider answers |
| LogStreamRuns.AfterOk | crates/rpc-provider/src/events/streamed.rs:121-164 | In every run: at most `max_concurrent` chunks are in flight; what is emitted, buffered chunks and unstarted tail partition the range; a finished run has emitted all logs, a failed one exactly those of the whole chunks before the first failed one, which failed on one block or after `max_retries + 1` rate limits |
| LogStreamRuns.InFlightBounded | crates/rpc-provider/src/events/streamed.rs:143-164 | In every run at most `max_concurrent` chunks are in flight, one if that is 0 |
| LogStreamRuns.StartsWhileRoom | crates/rpc-provider/src/events/streamed.rs:143-164 | With fewer in flight and blocks left, a chunk can start, at the next block and with exactly the chunk size of the moment unless it ends the range |
| LogStreamRuns.EmittedIsPrefix | crates/rpc-provider/src/events/streamed.rs:113-116 | In every run the emitted logs are a prefix of the range's logs in block order |
| LogStreamRuns.SizeNeverGrows | crates/rpc-provider/src/events/streamed.rs:276-278 | Along every run the chunk size stays at least 1 and never grows |
| LogStreamRuns.RequestsBounded | crates/rpc-provider/src/events/streamed.rs:200-271 | In every run a chunk of `n` blocks makes at most `2n - 1` calls and `(2n - 1) * (max_retries + 1)` requests |
| LogStreamRuns.CostDrops | crates/rpc-provider/src/events/streamed.rs:143-164 | Every step that changes anything, other than the clock's, uses up a bound fixed at the start |
| LogStreamRuns.RunsEnd | crates/rpc-provider/src/events/streamed.rs:121-164 | Under any schedule and answers, a range of `n` blocks with `k` logs takes at most `1 + n * (6 * max_retries + 10) + k` steps |
| LogStreamRuns.NeverStuck | crates/rpc-provider/src/events/streamed.rs:121-164 | Until it ends the stream can always move, if need be once the clock reaches a slot |
| LogStreamRuns.CanEnd | crates/rpc-provider/src/events/streamed.rs:121-164 | Every run, however it went so far, extends to one that has ended; if no chunk in the buffer has failed, to one that emitted all logs of the range |
| LogStreamPacing.RunsAreStaggered | crates/rpc-provider/src/events/streamed.rs:250-253 | In every run, no two requests are asleep at the same time for slots less than one stagger apart |
| LogStreamPacing.RunIsHistory | crates/rpc-provider/src/events/streamed.rs:234-302 | In every run the shared pacing state is the outcome of the locked calls the tasks made, in the order of a clock that never runs backwards |
| LogStreamPacing.RunsArePaced | crates/rpc-provider/src/events/streamed.rs:250-271 | Over a whole run any two slots ever handed out are one stagger apart, and after `k >= 1` pauses since the last reset the delay is `min(base * 2^k, max)` |
| LogStreamPacing.RunsSpreadSlots | crates/rpc-provider/src/events/streamed.rs:234-302 | Over a whole run any `c + 1` slots in a row span more than `base_delay - c`, and every slot is the end of a pause plus at most one stagger for each claim since |
| LogStreamPacing.AnswersPace | crates/rpc-provider/src/events/streamed.rs:250-301 | What each answer does to size, delay and pause in a run, field by field |
| LogStreamPacing.SentOnTime | crates/rpc-provider/src/events/streamed.rs:250-253 | A request that waits is sent by no step before its slot has come |
| LogStreamPacing.RunsRespectPauses | crates/rpc-provider/src/events/streamed.rs:250-271 | In every run, a request claimed after a pause, by whichever task, is sent no earlier than the pause's end |
| LogStreamPacing.SleepersHoldSlots | crates/rpc-provider/src/events/streamed.rs:250-253 | The slot a task sleeps for is the last of those slots, and in the future |
| LogStreamPacing.RefusalHalvesChunks | crates/rpc-provider/src/events/streamed.rs:222-227 | Once a range has been refused, every chunk started later in the run is at most half as long |
| EdwardsCurve.SumOnCurve | crates/tornadocash/core/src/crypto/babyjubjub.rs:74-106 | The affine law takes two points of the curve to a point of the curve wherever it is defined |
| EdwardsCurve.LawIsComplete | crates/tornadocash/core/src/crypto/babyjubjub.rs:74-106 | When `a` is a square and `d` is not, the law is defined for every two points of the curve |
| SmallCurve.FourIsGroup | crates/tornadocash/core/src/crypto/babyjubjub.rs:74-106 | The curve `x^2 + y^2 = 1 + 2 * x^2 * y^2` over the integers modulo 3 meets all of `Group`, associativity included |
| BabyJubjub.AIsASquare | crates/tornadocash/core/src/crypto/babyjubjub.rs:7 | 168700 is a square in the field of the curve |
| ConcreteCurve.TheCurveIsComplete | crates/tornadocash/core/src/crypto/babyjubjub.rs:7-8 | With 168696 not a square, the law of the curve is defined for every two of its points, and `a` is not zero in the field |
| ConcreteCurve.GeneratorsOnCurve | crates/tornadocash/core/src/crypto/babyjubjub.rs:7-8 | The two generators named in ERC-2494 (its Specification section) lie on the curve of the coefficients given |
| PrimeField.ReduceIsMod | crates/tornadocash/core/src/crypto/babyjubjub.rs:1-2 | The canonical representatives the model computes with are remainders modulo the field prime |
| BabyJubjub.AddRepresents | crates/tornadocash/core/src/crypto/babyjubjub.rs:75-106 | The projective formula computes the affine law for all representatives with non-zero third coordinates wherever the denominators are non-zero |
| BabyJubjub.AffineRecovers | crates/tornadocash/core/src/crypto/babyjubjub.rs:59-72 | Returning to affine coordinates recovers the represented point |
| BabyJubjub.MulScalar | crates/tornadocash/core/src/crypto/babyjubjub.rs:32-55 | For every integer and every point of the curve, and any coefficients that satisfy `Group`, double-and-add is that many additions (of its magnitude) |
| ConcreteCurve.MulScalar | crates/tornadocash/core/src/crypto/babyjubjub.rs:32-55 | The same on the curve of the source, from the trusted hypotheses alone |
| BabyJubjub.TimesOnCurve | crates/tornadocash/core/src/crypto/babyjubjub.rs:32-55 | Multiples of a point of the curve are on the curve |
| BabyJubjub.CurveMonoid | crates/tornadocash/core/src/crypto/babyjubjub.rs:74-106 | Given the hypotheses of `Group`, the points of the curve are closed under the law with (0, 1) neutral on both sides |
| Multiples.TimesAdd | crates/tornadocash/core/src/crypto/babyjubjub.rs:47-52 | `m + n` additions are `m` additions plus `n` |
| Multiples.TimesTimes | crates/tornadocash/core/src/crypto/pedersen.rs:118-123 | `m` times `n` additions are `m * n` additions |
| Multiples.DoublingStep | crates/tornadocash/core/src/crypto/babyjubjub.rs:47-52 | One bit of the loop keeps the accumulator at the bits read so far times the point, over any representation of any monoid |
| SignedWindows.SegmentScalar | crates/tornadocash/core/src/crypto/pedersen.rs:64-93 | The loop computes the signed base-32 number of the segment's windows |
| WindowSums.BytesAreSums | crates/tornadocash/core/src/crypto/mod.rs:11-13 | The eight bits read from a byte, lowest first, spell the byte |
| WindowSums.ScalarIsSum | crates/tornadocash/core/src/crypto/pedersen.rs:59-93 | The scalar of a segment is the sum over its windows, at most 50, of `(1 + b0 + 2 b1 + 4 b2) * 32^w`, negated where the fourth bit is set |
| WindowSums.ScalarsAreSums | crates/tornadocash/core/src/crypto/pedersen.rs:34-50 | A byte string has one scalar for every 200 bits begun, at least one; each is that sum over the bits of the whole string from `200 s` on, moved up by the order of the subgroup if negative |
| SignedWindows.WindowsInjective | crates/tornadocash/core/src/crypto/pedersen.rs:59-63 | Two whole-window bit lists with one value have the same length and bits |
| SignedWindows.ScalarBound | crates/tornadocash/core/src/crypto/pedersen.rs:18-26 | A scalar's magnitude is at most `8 * (32^50 - 1) / 31`, below half of the subgroup order |
| SignedWindows.FixUpInjective | crates/tornadocash/core/src/crypto/pedersen.rs:47-50 | The sign fix-up lands in `0..ORDER >> 3` and merges no two scalars |
| SignedWindows.SubgroupOrder | crates/tornadocash/core/src/crypto/pedersen.rs:25-26 | The literal order of the subgroup is `ORDER >> 3`, and eight of it make `ORDER` |
| Pedersen.FixUpNegates | crates/tornadocash/core/src/crypto/pedersen.rs:47-50 | Adding an order that takes a point to the identity to a negative scalar takes the point to the inverse of the multiple by the scalar's magnitude |
| SignedWindows.DataBitsInjective | crates/tornadocash/core/src/crypto/mod.rs:11-13 | Byte strings with the same bits are equal |
| SignedWindows.ScalarsInjective | crates/tornadocash/core/src/crypto/pedersen.rs:34-50 | The list of per-segment scalars determines a byte string of any length |
| Pedersen.PedersenHash | crates/tornadocash/core/src/crypto/pedersen.rs:34-57 | On any curve that is a group and with generators on it, the hash is the first coordinate of the sum of the base points, each taken as often as its segment's scalar says |
| Pedersen.CombinationOfOne | crates/tornadocash/core/src/crypto/pedersen.rs:43-54 | In any monoid, one scalar takes the first generator that many times |
| Pedersen.CombinationOfMore | crates/tornadocash/core/src/crypto/pedersen.rs:43-54 | Further scalars add their combination with the generators after those used |
| ConcreteCurve.PedersenHash | crates/tornadocash/core/src/crypto/pedersen.rs:34-57 | The same on the curve of the source, with the generators that the search finds: that they are on the curve is proved |
| Pedersen.ScalarsAreMultiples | crates/tornadocash/core/src/crypto/pedersen.rs:47-52 | No negative scalar reaches the multiplication |
| Pedersen.BasePoints.Get | crates/tornadocash/core/src/crypto/pedersen.rs:95-105 | The cache always answers with the generator and remembers exactly what was asked for |
| Pedersen.InSubgroup | crates/tornadocash/core/src/crypto/pedersen.rs:162-165 | Accepts a point of the curve exactly when the subgroup order takes it to the identity |
| Pedersen.UnpackPoint | crates/tornadocash/core/src/crypto/pedersen.rs:133-160 | A point is returned if and only if it is the point of the curve with the encoded y-coordinate whose x-coordinate has the encoded sign, whichever root the field returns |
| ConcreteCurve.UnpackPoint | crates/tornadocash/core/src/crypto/pedersen.rs:133-160 | The same on the curve of the source, from the trusted hypotheses alone |
| Pedersen.UnpackExact | crates/tornadocash/core/src/crypto/pedersen.rs:129-160 | The function the method computes is exact in the same sense |
| PointBytes.LittleEndianIsSum | crates/tornadocash/core/src/crypto/pedersen.rs:138 | The number read from bytes is their sum by powers of 256, lowest first |
| PointBytes.UnmaskSplits | crates/tornadocash/core/src/crypto/pedersen.rs:134-136 | The sign is bit 255 of the bytes, and the y-coordinate is the number below it |
| PointBytes.MaskedClears | crates/tornadocash/core/src/crypto/pedersen.rs:117 | Masking a digest clears bit 254 and keeps every other bit |
| Pedersen.TryPoint | crates/tornadocash/core/src/crypto/pedersen.rs:116-123 | One try of the search: unpacks the masked digest, multiplies by 8 and accepts what lies in the subgroup |
| Pedersen.CandidateInSubgroup | crates/tornadocash/core/src/crypto/pedersen.rs:116-124 | Whatever a try accepts is on the curve and taken to the identity by the subgroup order |
| Pedersen.AcceptedIffOrderKills | crates/tornadocash/core/src/crypto/pedersen.rs:116-124 | A try accepts exactly when the order of the whole group takes the unpacked point to the identity |
| Pedersen.Search | crates/tornadocash/core/src/crypto/pedersen.rs:113-127 | If some try succeeds, the search ends with what the first such try yields |
| Pedersen.SearchedInSubgroup | crates/tornadocash/core/src/crypto/pedersen.rs:107-127 | Every generator the search finds is on the curve and in the subgroup |
| Mimc.Hash | crates/tornadocash/core/src/crypto/mimc.rs:28-45 | The unrolled first and last rounds and the loop between are one uniform Feistel network over all constants, the first being 0 |
| Mimc.Pow5Exact | crates/tornadocash/core/src/crypto/mimc.rs:23-26 | `pow5` is the fifth power modulo the prime |
| Mimc.PermuteIsRecurrence | crates/tornadocash/core/src/crypto/mimc.rs:28-45 | The permutation written as one sequence: from the right and left half on, each term is the one two before plus the fifth power of the one before with key and constant added; the last two terms are the result |
| Mimc.FeistelBijective | crates/tornadocash/core/src/crypto/mimc.rs:28-45 | For every key and any round function the network is a bijection whose inverse runs the constants backwards |
| Mimc.MultiHash | crates/tornadocash/core/src/crypto/mimc.rs:47-65 | Absorbs every input and squeezes `max(1, n)` outputs |
| Mimc.SpongeStates | crates/tornadocash/core/src/crypto/mimc.rs:47-65 | The states between permutations, from zeros on: one permutation for each input, added to the left half, and one more between two outputs, each the left half of its state |
| Mimc.AbsorbInjective | crates/tornadocash/core/src/crypto/mimc.rs:51-54 | After equal inputs, different next inputs leave different states |
| PoolIndexes.IndexBatches | crates/tornadocash/keychain/src/recovery.rs:108-149 | One entry a pool in order of first appearance, over all events of its batches |
| PoolIndexes.EntryExact | crates/tornadocash/keychain/src/recovery.rs:108-149 | A hash is in a pool's deposits (withdrawals) exactly when an event of some batch of the pool is a deposit of that commitment (a withdrawal of that nullifier hash), and maps to the last such event over all batches |
| PoolIndexes.PoolsInOrder | crates/tornadocash/keychain/src/recovery.rs:108-127 | The entries are in the order of the first batches of their pools |
| PoolIndexes.SplitBatch | crates/tornadocash/keychain/src/recovery.rs:52-54 | Splitting a batch in two consecutive batches never changes the index, so it changes no recovery |
| Recovery.MatchNonce | crates/tornadocash/keychain/src/recovery.rs:82-101 | One nonce against every pool gives its matches in the order of the pools |
| Recovery.Scan | crates/tornadocash/keychain/src/recovery.rs:74-104 | Terminates, either with exactly the notes below the first point preceded by a gap, all nonces before it derivable, or because one of them is not |
| Recovery.FoundOrBlocked | crates/tornadocash/keychain/src/recovery.rs:59-60 | The two outcomes exclude each other: a scan fails exactly when some nonce before the stopping point cannot be derived |
| Recovery.Recover | crates/tornadocash/keychain/src/recovery.rs:61-105 | The same over all batches, for every gap limit including none and 0, when no deposited commitment belongs to two nonces |
| Recovery.NotesFromEvents | crates/tornadocash/keychain/src/recovery.rs:61-149 | Read off the batches: a note is returned if and only if its nonce is below the stopping point and its deposit is the pool's last one of the derived commitment; it has a withdrawal exactly when a batch of its pool has one of the derived nullifier hash, and then the last one |
| Recovery.NotesInOrder | crates/tornadocash/keychain/src/recovery.rs:82-101 | The notes are in strict order of nonce and then of their pools' first batches, which with the row above fixes the whole list |
| Recovery.HitIffUsed | crates/tornadocash/keychain/src/recovery.rs:82-101 | A nonce counts as found exactly when some batch has a deposit of the commitment derived for it and the batch's pool |
| GapScans.StopBound | crates/tornadocash/keychain/src/recovery.rs:74-80 | The stopping point is at most `(hit nonces + 1) * gap_limit` |
| Recovery.HitsBounded | crates/tornadocash/keychain/src/recovery.rs:82-101 | When no deposited commitment belongs to two nonces there are never more hit nonces than deposits |
| Recovery.ScanStops | crates/tornadocash/keychain/src/recovery.rs:74-80 | When no deposited commitment belongs to two nonces every scan does have a stopping point, at most `(deposits + 1) * gap_limit` |
| Recovery.NotesAreMatches | crates/tornadocash/keychain/src/recovery.rs:83-101 | A note is returned if and only if its pool has its nonce's deposit and the nonce is below the stopping point |
| Recovery.AllNotesIffChained | crates/tornadocash/keychain/src/recovery.rs:46-57 | Every note there is lies below the stopping point exactly when used nonces are never more than the gap limit apart, the first below it |
| Recovery.NextNonce | crates/tornadocash/keychain/src/recovery.rs:37-44 | One past the nonce of the last recovered note, or 0, under the same hypothesis as `Recover` |
| Recovery.NextNonceIsPastLast | crates/tornadocash/keychain/src/recovery.rs:33-44 | That is one past the highest hit below the stopping point |
| Recovery.NextIsFreshIffChained | crates/tornadocash/keychain/src/recovery.rs:33-44 | The next nonce is past every used nonce if and only if used nonces are never more than the gap limit apart, the first below it |
| Recovery.UsedNoncePastGap | crates/tornadocash/keychain/src/recovery.rs:33-44 | For every gap limit from 1 on, deposits of nonces 0 and `gap + 1`, at distinct commitments, give 1 as the next nonce although `gap + 1` is used |
| Wallet.ScanOfWallet | crates/tornadocash/keychain/src/recovery.rs:37-105 | A wallet that used nonces `0..n` is scanned to `n + gap` and offered nonce `n` next |
| Wallet.ScanOfWalletStops | crates/tornadocash/keychain/src/recovery.rs:74-80 | Such a scan does stop there |
| Wallet.DepositsAreRecovered | crates/tornadocash/keychain/src/recovery.rs:61-105 | Every deposit so far is recovered in the pool it was made in |
| Wallet.NoncesCountUp | crates/tornadocash/keychain/src/recovery.rs:33-44 | Over every run that deposits at the next nonce, in any pools and from any batches covering its deposits, the nonces are 0, 1, 2, ... |
| Wallet.RunIsRecoverable | crates/tornadocash/keychain/src/recovery.rs:37-105 | After every such run each deposit is recoverable |
| Events.NewSnapshotExact | crates/tornadocash/core/src/event.rs:91-120 | A batch is accepted if and only if every event is in range and the leaf indices count up by one, and is kept as given |
| Events.ContiguousExact | crates/tornadocash/core/src/event.rs:104-113 | The leaf indices count up exactly when, between any two deposits with none between them, they differ by one |
| Events.NewSnapshotErrors | crates/tornadocash/core/src/event.rs:96-113 | A refusal names the first event out of range, if there is one, and otherwise the first two neighbouring deposits that are not consecutive |
| Events.DepositInOrder | crates/tornadocash/core/src/merkle_tree.rs:64-76 | The lists taken from a batch hold each deposit's leaf index and commitment at its place among the deposits |
| Events.FirstOutsideExact | crates/tornadocash/core/src/event.rs:96-102 | The block reported is that of the first event out of range |
| Events.FirstBreakExact | crates/tornadocash/core/src/event.rs:104-113 | The pair reported is the first one that is not consecutive |
| Events.SnapshotParts | crates/tornadocash/core/src/event.rs:86-120 | Both parts of an accepted batch are acceptable on their own |
| TreeSync.SpliceEvents | crates/tornadocash/core/src/merkle_tree.rs:62-78 | The deposits are spliced in at the first one's leaf index; if an accepted batch succeeds, every deposit's commitment is the leaf at its leaf index and every other leaf is as it was; a refused batch leaves the tree as it was |
| TreeSync.SplicedEventsExact | crates/tornadocash/core/src/merkle_tree.rs:62-78 | The leaves after an accepted batch, from the fields of its events: what the lemmas about batches speak of is what the method does |
| TreeSync.SplicedEventsRefused | crates/tornadocash/core/src/merkle_tree.rs:62-78 | It is refused only because its first deposit leaves a gap, which the error names, or because some deposit is past the capacity |
| TreeSync.SpliceEventsInTwo | crates/tornadocash/core/src/merkle_tree.rs:62-78 | Splitting a batch anywhere changes neither success nor the resulting leaves |
| TreeSync.SpliceOfHistory | crates/tornadocash/core/src/merkle_tree.rs:62-78 | A batch of a history extends the known prefix, or leaves a gap and is rejected with its first index |
| TreeSync.FoldedIsPrefix | crates/tornadocash/core/src/merkle_tree.rs:62-78 | Whatever batches of one history are offered in whatever order, the leaves are a prefix of it |
| TreeSync.BatchesRebuildHistory | crates/tornadocash/core/src/merkle_tree.rs:62-78 | Batches that overlap or adjoin and cover the history put every commitment at its leaf index, as one splice of the whole does |
| Saga.ParseChunkEvents | crates/tornadocash/syncer/src/saga/decode.rs:91-136 | The loop computes the first bad line's error or the events in range |
| SagaLines.ParsesExactly | crates/tornadocash/syncer/src/saga/decode.rs:91-136 | A chunk parses over a range if and only if no line is malformed, all entries are in the chunk's declared range and in strict order of block and log index (several in one block included), and those in the range asked for decode |
| SagaLines.ErrorExact | crates/tornadocash/syncer/src/saga/decode.rs:98-125 | The error is that of the first bad line; an entry out of order is named by the number of non-blank lines before it |
| SagaLines.EventsInOrder | crates/tornadocash/syncer/src/saga/decode.rs:120-133 | The events are those of the lines of interest, each at its place among these lines with its own block and data |
| Saga.ChunkSplits | crates/tornadocash/syncer/src/saga/decode.rs:91-136 | For every chunk and `a <= b <= c`, parsing `a..c` succeeds exactly when both parts do and is their concatenation |
| Saga.DroppedChunk | crates/tornadocash/syncer/src/saga/mod.rs:109-113 | A chunk the overlap filter drops contributes no events if it parses at all |
| Saga.Sync | crates/tornadocash/syncer/src/saga/mod.rs:97-126 | Clamps the range, collects the overlapping chunks in order and validates the result, as `Synced` says |
| SagaLines.ClampedExact | crates/tornadocash/syncer/src/saga/mod.rs:97-105 | A block is synced exactly when it was asked for, is not before the deployment and comes before the end of the last chunk |
| SagaLines.SyncedContents | crates/tornadocash/syncer/src/saga/mod.rs:97-126 | A synced batch holds exactly the events of interest on the lines of the chunks that meet the clamped range |
| Saga.SyncedExact | crates/tornadocash/syncer/src/saga/mod.rs:97-126 | A sync succeeds exactly when its overlapping chunks parse and their deposits count up by one: no event can be out of range; the batch then holds all events collected |
| Saga.CollectedSplits | crates/tornadocash/syncer/src/saga/mod.rs:109-124 | Over ascending chunks, collecting `a..c` succeeds exactly when both parts do and is their concatenation |
| Saga.SyncSplits | crates/tornadocash/syncer/src/saga/mod.rs:97-124 | Syncing `from..to` succeeds exactly when syncing `from..mid` and `mid..to` do and the second part's first leaf follows the first part's last (or one has no deposit); its events are then theirs in order |
| Saga.PartsWithoutWhole | crates/tornadocash/syncer/src/saga/mod.rs:126 | A stream both of whose parts sync while the whole is refused as non-contiguous |
| Saga.ClampedSplits | crates/tornadocash/syncer/src/saga/mod.rs:97-124 | What is collected over a range is what is collected over its parts, across the clamping at the deployment block and at the end of what is published |
| Amounts.FormatAmount | crates/tornadocash/core/src/pool.rs:461-480 | For every amount and scale the output, read as a decimal times `10^decimals`, is the amount, without redundant leading zero, trailing fraction zero or trailing point |
| Amounts.FormattedExact | crates/tornadocash/core/src/pool.rs:461-480 | The function the method computes is exact in the same sense |
| Amounts.ValueIsSum | crates/tornadocash/core/src/pool.rs:461-480 | The number an output is read as is the sum of its digits by powers of ten |
| Amounts.SameOutputIffSameValue | crates/tornadocash/core/src/pool.rs:448-452 | Two amounts at any two scales print alike if and only if they are the same number |
| Notes.RoundTripIffDashFree | crates/tornadocash/core/src/note/mod.rs:130-175 | Parsing undoes printing if and only if symbol and amount contain no dash |
| Notes.DashedSymbolIsLost | crates/tornadocash/core/src/note/mod.rs:146-161 | A symbol with one dash makes the printed note unreadable: the amount is read as the chain, and the chain as hexadecimal |
| Notes.DashedNote | crates/tornadocash/core/src/note/mod.rs:146-161 | One such note, and the error its printed form parses to |
| Notes.ParsedIsDashFree | crates/tornadocash/core/src/note/mod.rs:146-174 | Every string that parses yields a well-formed note whose symbol and amount contain no dash |
| Notes.PrintThenParse | crates/tornadocash/core/src/note/mod.rs:130-175 | Printing a parsed note and parsing it again is the identity |
| NoteForms.PrintedForm | crates/tornadocash/core/src/note/mod.rs:130-141 | The printed string, character by character: `tornado`, symbol, amount, chain id in decimal, `0x` and two lower-case digits a byte, nullifier first |
| NoteForms.ParsesExactly | crates/tornadocash/core/src/note/mod.rs:146-174 | A string parses to a note if and only if it is `tornado-`, the dash-free symbol and amount, the chain id in digits (a plus sign allowed) and, after `0x` or nothing, 124 hexadecimal digits in either case that spell nullifier and secret |
| NoteForms.FivePartParses | crates/tornadocash/core/src/note/mod.rs:146-168 | Which error a string of five parts gives: chain id first, then the digits, then their number |
| NoteForms.OthersAreInvalid | crates/tornadocash/core/src/note/mod.rs:148-151 | Every other string is `InvalidFormat` |
| NoteForms.ParseU64Exact | crates/tornadocash/core/src/note/mod.rs:155 | A chain id is read exactly from decimal digits that fit, after a plus sign or not |
| Notes.PoolNotesRoundTrip | crates/tornadocash/core/src/note/mod.rs:96-103 | Every note made for a pool with a dash-free symbol survives printing and parsing |
| Notes.HexRoundTrip | crates/tornadocash/core/src/note/mod.rs:138 | Decoding undoes encoding for every byte string |
| NoteForms.HexDecodeExact | crates/tornadocash/core/src/note/mod.rs:157-158 | A string decodes to bytes exactly when its pairs of characters spell them |
| Notes.CommittedScalarsDetermineNote | crates/tornadocash/core/src/note/mod.rs:61-71 | The scalars a note's commitment is computed from determine the note |

## Left out

- `ConcreteCurve.Trusted`: associativity of the curve law, that 168696 is not a square and that every non-zero element has an inverse are hypotheses, not proved of the given numbers.
- `SignedWindows.ScalarsInjective`: says nothing about collisions of the hash itself, which rest on discrete logarithms.
- `Pedersen.BasePoints.Get`: takes the generators as given; that they are what the search finds is the hypothesis `Searched`, since nothing in the code decides that the search ends. Blake-256 of the seeds is an uninterpreted function.
- `Pedersen.Search`: runs over what each try accepts, given as a function; that `TryPoint` computes it is that method's contract.
- `Recovery.Recover`: takes as precondition that no deposited commitment belongs to two nonces, without which the scan need not end; nonces are unbounded rather than 64-bit.
- `MerkleTrees.MerkleTree.Splice`: overflow of `index + leaves.len()` and the cast of the depth to 32 bits are not modelled; the rows are sequence values reassigned by the method, not slices written in place.
- `MerkleTrees.HashLevel`: parallel hashing is an arbitrary order of slots, not threads; the result is returned rather than written through a borrowed slice.
- `MerkleProofs.Verify`: path entries are naturals below the arity rather than bytes; an entry past the row, on which the source panics, is excluded.
- `LogStream.Step`: the async runtime is any interleaving of atomic steps, which allows more than the runtime does; lock poisoning and `Duration` overflow are not modelled.
- `ChunkQuery.QueryChunk`: other tasks of the stream are an arbitrary change of the shared state at every await; the exact interleavings are in `LogStream`.
- Resolving block tags to numbers, including the saturating end of the range.
- `Saga.ParseChunkEvents`: JSON, UTF-8, gzip and digest checks are reduced to whether a line is blank, malformed or an event; a stream missing from the manifest is not modelled.
- `Amounts.FormatAmount`: amounts and scales are unbounded, so the source's 128-bit and 8-bit inputs are covered.
- `Notes.RoundTripIffDashFree`: strings are sequences of characters; the distinction of hexadecimal errors is dropped.
- Pools are an abstract type with equality; the constant catalogue of pools and assets is data.
- `mimc_sponge_hash`, `note_proof` and pool ids: one call each to what is modelled.
- Groth16 proving, EIP-712 signing, Keccak, relayer quotes, paymaster fees, user operations, the Tor and bundler clients, the wasm bindings and the fork kit.
