/** What Merkle proofs are worth: every honest proof is accepted, an accepted proof names a leaf or
    exposes a hash collision, and a root fixes the leaves of a list of known length. */
module MerkleProofs {
  import opened Bits
  import opened ByteStrings
  import opened MerkleSpec
  import opened MerkleTree

  // ---------- Completeness ----------

  /** A node exists exactly when its first leaf does. */
  lemma NodeExists<T>(join: (T, T) -> T, leaves: seq<T>, k: nat, j: nat)
    ensures Node(join, leaves, k, j).Some? <==> FirstLeaf(k, j) < |leaves|
  {
    NodeIsSubRoot(join, leaves, k, j);
  }

  lemma LeftNeighbourExists<T>(join: (T, T) -> T, leaves: seq<T>, k: nat, j: nat)
    requires Node(join, leaves, k, j).Some? && j > 0
    ensures Node(join, leaves, k, j - 1).Some?
  {
    NodeExists(join, leaves, k, j);
    NodeExists(join, leaves, k, j - 1);
    NextFirstLeaf(k, j - 1);
  }

  /** Every node above an existing leaf exists. */
  lemma {:induction false} PathNodeExists(join: Joiner, leaves: seq<Digest>, pos: nat, k: nat)
    requires pos < |leaves|
    ensures Node(join, leaves, k, Ancestor(pos, k)).Some?
  {
    if k > 0 {
      PathNodeExists(join, leaves, pos, k - 1);
      if Ancestor(pos, k - 1) % 2 == 1 {
        LeftNeighbourExists(join, leaves, k - 1, Ancestor(pos, k - 1));
      }
    }
  }

  /** The digest of the node above leaf pos at level k. */
  function PathNode(join: Joiner, leaves: seq<Digest>, pos: nat, k: nat): Digest
    requires pos < |leaves|
  {
    PathNodeExists(join, leaves, pos, k);
    Node(join, leaves, k, Ancestor(pos, k)).value
  }

  /** The flag and sibling bytes an honest proof has for level k. */
  predicate HonestStep(join: Joiner, leaves: seq<Digest>, pos: nat, k: nat, flag: Bytes, sibling: Bytes)
    requires pos < |leaves|
  {
    var a := Ancestor(pos, k);
    if a % 2 == 0 then
      var right := Node<Digest>(join, leaves, k, a + 1);
      flag == RIGHT_FLAG && sibling == if right.Some? then right.value else PathNode(join, leaves, pos, k)
    else
      flag == LEFT_FLAG && Node<Digest>(join, leaves, k, a - 1) == Some(sibling)
  }

  /** What the array has in the slot of node j of level k. */
  lemma SlotHolds(join: Joiner, leaves: seq<Digest>, height: nat, tree: seq<Cell?>, k: nat, j: nat, i: nat)
    requires |leaves| <= Pow2(height) && StoresTree(join, leaves, height, tree)
    requires k <= height && j < Pow2(height - k)
    requires i == LevelStart(height, k) + j
    ensures i < |tree| && Holds(tree[i], Node(join, leaves, k, j))
  {
    ArrayHoldsNodes(join, leaves, height, k, j, i);
    assert Holds(tree[i], Slot(join, leaves, Pow2(height), i));
  }

  /** What the array has in the slots of a path node and of its sibling. */
  lemma PathSlotsHold(join: Joiner, leaves: seq<Digest>, height: nat, tree: seq<Cell?>, pos: nat, k: nat, a: nat, at: nat)
    requires |leaves| <= Pow2(height) && StoresTree(join, leaves, height, tree)
    requires pos < |leaves| && k < height && a == Ancestor(pos, k) && at == PathSlot(height, pos, k)
    ensures Holds(tree[at], Node(join, leaves, k, a))
    ensures a % 2 == 0 ==> Holds(tree[at + 1], Node(join, leaves, k, a + 1))
    ensures a % 2 == 1 ==> Holds(tree[at - 1], Node(join, leaves, k, a - 1))
  {
    PathIndex(height, pos, k);
    SlotHolds(join, leaves, height, tree, k, a, at);
    if a % 2 == 0 {
      SlotHolds(join, leaves, height, tree, k, a + 1, at + 1);
    } else {
      SlotHolds(join, leaves, height, tree, k, a - 1, at - 1);
    }
  }

  /** The steps the generator reads off the array are the honest ones; none of them is nil. */
  lemma StepIsHonest(join: Joiner, leaves: seq<Digest>, height: nat, tree: seq<Cell?>, pos: nat, k: nat, flag: Cell?, sibling: Cell?)
    requires |leaves| <= Pow2(height) && StoresTree(join, leaves, height, tree)
    requires pos < |leaves| && k < height
    requires PathStep(tree, height, pos, k, flag, sibling)
    ensures sibling != null && HonestStep(join, leaves, pos, k, flag.bytes, sibling.bytes)
  {
    PathSlotsHold(join, leaves, height, tree, pos, k, Ancestor(pos, k), PathSlot(height, pos, k));
    PathNodeExists(join, leaves, pos, k);
    if Ancestor(pos, k) % 2 == 1 {
      LeftNeighbourExists(join, leaves, k, Ancestor(pos, k));
    }
  }

  /** An honest step takes the climb from one path node to the next. */
  lemma HonestStepClimbs(join: Joiner, leaves: seq<Digest>, pos: nat, k: nat, flag: Bytes, sibling: Bytes)
    requires pos < |leaves| && HonestStep(join, leaves, pos, k, flag, sibling)
    ensures PathNode(join, leaves, pos, k + 1) ==
      if flag == LEFT_FLAG then join(Fit(sibling), PathNode(join, leaves, pos, k))
      else join(PathNode(join, leaves, pos, k), Fit(sibling))
    ensures flag == LEFT_FLAG <==> Ancestor(pos, k) % 2 == 1
    ensures flag == LEFT_FLAG || flag == RIGHT_FLAG
  {
    PathNodeExists(join, leaves, pos, k);
    PathNodeExists(join, leaves, pos, k + 1);
    assert LEFT_FLAG[0] != RIGHT_FLAG[0];
    var a := Ancestor(pos, k);
    var left, right := Node<Digest>(join, leaves, k, a / 2 * 2), Node<Digest>(join, leaves, k, a / 2 * 2 + 1);
    assert Node<Digest>(join, leaves, k + 1, a / 2) == Parent(join, left, right);
    assert Fit(sibling) == sibling;
  }

  /** The step that args hold for level k is the honest one. */
  predicate HonestPair(join: Joiner, leaves: seq<Digest>, pos: nat, k: nat, args: seq<Bytes>)
    requires pos < |leaves| && 2 * k + 2 < |args|
  {
    HonestStep(join, leaves, pos, k, args[2 * k + 1], args[2 * k + 2])
  }

  /** The first n steps of args are those of an honest proof for leaf pos. */
  ghost predicate HonestArgs(join: Joiner, leaves: seq<Digest>, pos: nat, n: nat, args: seq<Bytes>)
    requires pos < |leaves|
  {
    && 2 * n < |args|
    && args[0] == leaves[pos]
    && forall k :: 0 <= k < n ==> HonestPair(join, leaves, pos, k, args)
  }

  /** Climbing along honest steps visits the path nodes. */
  lemma {:induction false} HonestClimb(join: Joiner, leaves: seq<Digest>, pos: nat, n: nat, args: seq<Bytes>)
    requires pos < |leaves| && HonestArgs(join, leaves, pos, n, args)
    ensures |Moves(args, n)| == n && Climb(join, args[0], Moves(args, n)) == PathNode(join, leaves, pos, n)
  {
    if n > 0 {
      var k := n - 1;
      var flag, sibling := args[2 * k + 1], args[2 * k + 2];
      HonestClimb(join, leaves, pos, k, args);
      assert HonestPair(join, leaves, pos, k, args);
      HonestStepClimbs(join, leaves, pos, k, flag, sibling);
      RecognisedMove(args, k, flag);
      ClimbStep(join, args[0], Moves(args, k), Move(flag == LEFT_FLAG, sibling));
    }
  }

  lemma PathLeafExists(join: Joiner, leaves: seq<Digest>, pos: nat, k: nat)
    requires pos < |leaves|
    ensures FirstLeaf(k, Ancestor(pos, k)) < |leaves|
  {
    PathNodeExists(join, leaves, pos, k);
    NodeExists(join, leaves, k, Ancestor(pos, k));
  }

  lemma PositionStep(n: nat, moves: seq<Move>, m: Move, a: nat)
    requires m.siblingOnLeft <==> a % 2 == 1
    requires FirstLeaf(|moves|, a) < n
    ensures PositionOf(n, moves + [m], a / 2) == PositionOf(n, moves, a)
  {
    assert (moves + [m])[..|moves|] == moves;
    assert a == 2 * (a / 2) + a % 2;
  }

  /** The directions of honest steps lead back to the position they were made for. */
  lemma {:induction false} HonestPosition(join: Joiner, leaves: seq<Digest>, pos: nat, n: nat, args: seq<Bytes>)
    requires pos < |leaves| && HonestArgs(join, leaves, pos, n, args)
    ensures |Moves(args, n)| == n && PositionOf(|leaves|, Moves(args, n), Ancestor(pos, n)) == pos
  {
    if n > 0 {
      var k, a := n - 1, Ancestor(pos, n - 1);
      var flag, sibling := args[2 * k + 1], args[2 * k + 2];
      HonestPosition(join, leaves, pos, k, args);
      assert HonestPair(join, leaves, pos, k, args);
      HonestStepClimbs(join, leaves, pos, k, flag, sibling);
      RecognisedMove(args, k, flag);
      PathLeafExists(join, leaves, pos, k);
      PositionStep(|leaves|, Moves(args, k), Move(flag == LEFT_FLAG, sibling), a);
    }
  }

  /** The argument list CopyProof makes of a proof without nil items. */
  ghost predicate IsCopy(args: seq<Bytes>, proof: seq<Cell?>)
    requires null !in proof && proof != []
    ensures IsCopy(args, proof) ==> args != []
  {
    |args| == |proof| && forall i :: 0 <= i < |proof| ==> args[i] == proof[i].bytes
  }

  /** A generated proof, item by item. */
  lemma ProofItems(join: Joiner, leaves: seq<Digest>, height: nat, tree: seq<Cell?>, pos: nat, proof: seq<Cell?>, k: nat)
    requires pos < |leaves| <= Pow2(height) && StoresTree(join, leaves, height, tree) && k < height
    requires PathProof(tree, height, pos, proof)
    ensures proof[0] != null && proof[0].bytes == leaves[pos]
    ensures proof[2 * k + 1] != null && proof[2 * k + 2] != null
    ensures HonestStep(join, leaves, pos, k, proof[2 * k + 1].bytes, proof[2 * k + 2].bytes)
  {
    var prefix := proof[..2 * height + 1];
    assert prefix[0] == proof[0] && prefix[2 * k + 1] == proof[2 * k + 1] && prefix[2 * k + 2] == proof[2 * k + 2];
    assert PathPair(tree, height, pos, k, prefix);
    StepIsHonest(join, leaves, height, tree, pos, k, proof[2 * k + 1], proof[2 * k + 2]);
    assert Holds(tree[pos], Slot(join, leaves, Pow2(height), pos));
  }

  /** The last array element is the tree's root. */
  lemma LastIsRoot(join: Joiner, leaves: seq<Digest>, height: nat, tree: seq<Cell?>)
    requires 0 < |leaves| <= Pow2(height) && StoresTree(join, leaves, height, tree)
    ensures tree[|tree| - 1] != null && tree[|tree| - 1].bytes == SubRoot(join, leaves, height)
  {
    LastSlotIsRoot(join, leaves, height);
    assert Holds(tree[|tree| - 1], Slot(join, leaves, Pow2(height), |tree| - 1));
  }

  ghost predicate PairPresent(proof: seq<Cell?>, k: nat)
    requires 2 * k + 2 < |proof|
  {
    proof[2 * k + 1] != null && proof[2 * k + 2] != null
  }

  lemma PairsCover(proof: seq<Cell?>, height: nat)
    requires |proof| == 2 * height + 2 && proof[0] != null && proof[2 * height + 1] != null
    requires forall k :: 0 <= k < height ==> PairPresent(proof, k)
    ensures null !in proof
  {
    forall i | 0 <= i < |proof|
      ensures proof[i] != null
    {
      if 0 < i < 2 * height + 1 {
        var k := (i - 1) / 2;
        assert PairPresent(proof, k) && (i == 2 * k + 1 || i == 2 * k + 2);
      }
    }
  }

  lemma NoNilItem(join: Joiner, leaves: seq<Digest>, height: nat, tree: seq<Cell?>, pos: nat, proof: seq<Cell?>)
    requires pos < |leaves| <= Pow2(height) && height > 0 && StoresTree(join, leaves, height, tree)
    requires PathProof(tree, height, pos, proof)
    ensures null !in proof
  {
    ProofItems(join, leaves, height, tree, pos, proof, 0);
    LastIsRoot(join, leaves, height, tree);
    forall k | 0 <= k < height
      ensures PairPresent(proof, k)
    {
      ProofItems(join, leaves, height, tree, pos, proof, k);
    }
    PairsCover(proof, height);
  }

  /** Completeness: a proof generated from a built tree has no nil item, and its copy is accepted for
      the last array element, which is the tree's root. */
  lemma Completeness(join: Joiner, leaves: seq<Digest>, height: nat, tree: seq<Cell?>, pos: nat, proof: seq<Cell?>)
    requires pos < |leaves| <= Pow2(height) && height > 0 && StoresTree(join, leaves, height, tree)
    requires PathProof(tree, height, pos, proof)
    ensures null !in proof
    ensures tree[|tree| - 1] != null && tree[|tree| - 1].bytes == SubRoot(join, leaves, height)
    ensures forall args: seq<Bytes> :: IsCopy(args, proof) ==>
              Reaches(join, SubRoot(join, leaves, height), args) && PositionOf(|leaves|, Moves(args, Pairs(args)), 0) == pos
  {
    NoNilItem(join, leaves, height, tree, pos, proof);
    LastIsRoot(join, leaves, height, tree);
    forall args: seq<Bytes> | IsCopy(args, proof)
      ensures Reaches(join, SubRoot(join, leaves, height), args) && PositionOf(|leaves|, Moves(args, Pairs(args)), 0) == pos
    {
      CopyIsHonest(join, leaves, height, tree, pos, proof, args);
      HonestCopy(join, leaves, height, pos, args);
    }
  }

  lemma CopyStepIsHonest(join: Joiner, leaves: seq<Digest>, height: nat, tree: seq<Cell?>, pos: nat, proof: seq<Cell?>,
                         args: seq<Bytes>, k: nat)
    requires pos < |leaves| <= Pow2(height) && k < height && StoresTree(join, leaves, height, tree)
    requires PathProof(tree, height, pos, proof)
    requires null !in proof && IsCopy(args, proof)
    ensures HonestPair(join, leaves, pos, k, args)
  {
    ProofItems(join, leaves, height, tree, pos, proof, k);
    assert args[2 * k + 1] == proof[2 * k + 1].bytes && args[2 * k + 2] == proof[2 * k + 2].bytes;
  }

  lemma CopyIsHonest(join: Joiner, leaves: seq<Digest>, height: nat, tree: seq<Cell?>, pos: nat, proof: seq<Cell?>, args: seq<Bytes>)
    requires pos < |leaves| <= Pow2(height) && height > 0 && StoresTree(join, leaves, height, tree)
    requires PathProof(tree, height, pos, proof)
    requires null !in proof && IsCopy(args, proof)
    ensures |args| == 2 * height + 2 && args[|args| - 1] == SubRoot(join, leaves, height)
    ensures HonestArgs(join, leaves, pos, height, args)
  {
    LastIsRoot(join, leaves, height, tree);
    ProofItems(join, leaves, height, tree, pos, proof, 0);
    forall k | 0 <= k < height
      ensures HonestPair(join, leaves, pos, k, args)
    {
      CopyStepIsHonest(join, leaves, height, tree, pos, proof, args, k);
    }
  }

  /** Honest steps followed by the root are accepted, and their directions spell out the position. */
  lemma HonestCopy(join: Joiner, leaves: seq<Digest>, height: nat, pos: nat, args: seq<Bytes>)
    requires pos < |leaves| <= Pow2(height) && height > 0
    requires |args| == 2 * height + 2 && args[|args| - 1] == SubRoot(join, leaves, height)
    requires HonestArgs(join, leaves, pos, height, args)
    ensures Reaches(join, SubRoot(join, leaves, height), args) && PositionOf(|leaves|, Moves(args, Pairs(args)), 0) == pos
  {
    HonestClimb(join, leaves, pos, height, args);
    HonestPosition(join, leaves, pos, height, args);
    PathEnd(height, pos);
    TopNode(join, leaves, height);
    assert Pairs(args) == height;
  }

  /** Build, generate, copy and verify, for one position: always accepted. */
  method ProveAndVerify(sha: Sha, assets: seq<Option<Bytes>>, pos: nat) returns (accepted: bool)
    requires pos < |assets| && None !in assets
    ensures accepted
  {
    var built := BuildMerkleTreeStore(sha, assets);
    var tree := built.value;
    ghost var height := if |assets| == 1 then 0 else Height(|assets|);
    var proof := GenerateProofFromTree(tree[pos], pos, tree, height);
    if |assets| > 1 {
      Completeness(Join(sha), LeafHashes(sha, assets), height, tree, pos, proof.value);
    }
    var copied := CopyProof(proof.value);
    var root := tree[|tree| - 1];
    var err := Verify(sha, root.bytes, copied.value);
    accepted := err == None;
  }

  /** The smallest trees, spelled out: two leaves are hashed left then right, a third is paired with itself. */
  lemma SmallRoots(sha: Sha, l0: Digest, l1: Digest, l2: Digest)
    ensures Root(Join(sha), [l0, l1]) == sha(sha(l0 + l1))
    ensures Root(Join(sha), [l0, l1, l2]) == sha(sha(sha(sha(l0 + l1)) + sha(sha(l2 + l2))))
  {
    assert Pow2(0) == 1 && Pow2(1) == 2 && Pow2(2) == 4;
    NextPowerUnique(2, Height(2), 1);
    NextPowerUnique(3, Height(3), 2);
    var join := Join(sha);
    assert [l0, l1][..1] == [l0] && [l0, l1][1..] == [l1];
    assert SubRoot(join, [l0, l1], 1) == join(SubRoot(join, [l0], 0), SubRoot(join, [l1], 0));
    var three := [l0, l1, l2];
    assert three[..2] == [l0, l1] && three[2..] == [l2];
    assert SubRoot(join, [l2], 1) == join(SubRoot(join, [l2], 0), SubRoot(join, [l2], 0));
    assert SubRoot(join, three, 2) == join(SubRoot(join, [l0, l1], 1), SubRoot(join, [l2], 1));
  }

  // ---------- Soundness ----------

  /** Two different 64-byte inputs with the same double hash. */
  predicate IsCollision(sha: Sha, x: Bytes, y: Bytes) {
    |x| == |y| == 2 * HASH_SIZE && x != y && DoubleHash(sha, x) == DoubleHash(sha, y)
  }

  datatype Evidence = LeafAt(position: nat) | Collision(x: Bytes, y: Bytes)

  /** The leaf position below node j that the directions of the moves lead to, in a tree over n
      leaves; a step towards a missing right child goes to the left child it duplicates. */
  function PositionOf(n: nat, moves: seq<Move>, j: nat): nat
    decreases |moves|
  {
    if moves == [] then j
    else
      var k := |moves| - 1;
      var right := moves[k].siblingOnLeft && FirstLeaf(k, 2 * j + 1) < n;
      PositionOf(n, moves[..k], if right then 2 * j + 1 else 2 * j)
  }

  /** Either the first element is the digest of the leaf the directions lead to, or here is a collision. */
  predicate Convincing(sha: Sha, leaves: seq<Digest>, leaf: Bytes, moves: seq<Move>, j: nat, e: Evidence) {
    if e.LeafAt? then
      e.position == PositionOf(|leaves|, moves, j) && e.position < |leaves| && leaves[e.position] == Fit(leaf)
    else
      IsCollision(sha, e.x, e.y)
  }

  /** Soundness by extraction: when a climb ends in the digest of node j, either it started at the
      leaf its directions lead to, or walking back down finds the collision. */
  function Extract(sha: Sha, leaves: seq<Digest>, leaf: Bytes, moves: seq<Move>, j: nat): (e: Evidence)
    requires Node(Join(sha), leaves, |moves|, j) == Some(Fit(Climb(Join(sha), leaf, moves)))
    ensures Convincing(sha, leaves, leaf, moves, j, e)
    decreases |moves|
  {
    if moves == [] then LeafAt(j)
    else
      var k := |moves| - 1;
      var m, init := moves[k], moves[..k];
      var below := Fit(Climb(Join(sha), leaf, init));
      var claimed := if m.siblingOnLeft then Block(Fit(m.sibling), below) else Block(below, Fit(m.sibling));
      var left, right := Node(Join(sha), leaves, k, 2 * j), Node(Join(sha), leaves, k, 2 * j + 1);
      var stored := Block(left.value, if right.Some? then right.value else left.value);
      if claimed != stored then Collision(claimed, stored)
      else
        NodeExists(Join(sha), leaves, k, 2 * j + 1);
        Extract(sha, leaves, leaf, init, if m.siblingOnLeft && right.Some? then 2 * j + 1 else 2 * j)
  }

  /** If Verify accepts a proof with one recognised step per level of the tree whose root it is
      checked against, its first element is the leaf at the position its directions spell out, or
      the proof contains a double-hash collision. */
  lemma Soundness(sha: Sha, leaves: seq<Digest>, height: nat, args: seq<Bytes>)
    requires 0 < |leaves| <= Pow2(height) && height > 0 && args != []
    requires Accepts(sha, SubRoot(Join(sha), leaves, height), args)
    requires |Moves(args, Pairs(args))| == height
    ensures Node(Join(sha), leaves, height, 0) == Some(Fit(Climb(Join(sha), args[0], Moves(args, Pairs(args)))))
    ensures var moves := Moves(args, Pairs(args));
            Convincing(sha, leaves, args[0], moves, 0, Extract(sha, leaves, args[0], moves, 0))
  {
    TopNode(Join(sha), leaves, height);
  }

  // ---------- Root binding ----------

  /** The children of a node over at most 2^(k+1) leaves; a missing right half repeats the left. */
  function Halves(leaves: seq<Digest>, k: nat): (h: (seq<Digest>, seq<Digest>))
    requires 0 < |leaves| <= Pow2(k + 1)
    ensures 0 < |h.0| <= Pow2(k) && 0 < |h.1| <= Pow2(k)
    ensures leaves == if |leaves| <= Pow2(k) then h.0 else h.0 + h.1
  {
    if |leaves| <= Pow2(k) then (leaves, leaves) else (leaves[..Pow2(k)], leaves[Pow2(k)..])
  }

  /** The 64 bytes whose double hash is the root of more than one level. */
  function RootBlock(sha: Sha, leaves: seq<Digest>, k: nat): (b: Bytes)
    requires 0 < |leaves| <= Pow2(k + 1)
    ensures |b| == 2 * HASH_SIZE
    ensures SubRoot(Join(sha), leaves, k + 1) == DoubleHash(sha, b)
    ensures b[..HASH_SIZE] == SubRoot(Join(sha), Halves(leaves, k).0, k)
    ensures b[HASH_SIZE..] == SubRoot(Join(sha), Halves(leaves, k).1, k)
  {
    var (left, right) := Halves(leaves, k);
    Block(SubRoot(Join(sha), left, k), SubRoot(Join(sha), right, k))
  }
}
