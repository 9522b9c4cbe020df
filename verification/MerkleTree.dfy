/** The Merkle tree of crypto/merkle.go: building it in a linear array, extracting a membership
    proof by index arithmetic, copying the proof, and verifying it by folding over its steps. */
module MerkleTree {
  import opened Bits
  import opened ByteStrings
  import opened MerkleSpec

  /** SHA-256 is left uninterpreted: any function from byte strings to digests. */
  type Sha = Bytes -> Digest

  /** What a pointer to a byte slice refers to; a nil pointer is null. */
  class Cell {
    const bytes: Bytes

    constructor (bytes: Bytes)
      ensures this.bytes == bytes
    {
      this.bytes := bytes;
    }
  }

  datatype MerkleError =
    | EmptyInput
    | NilLeaf
    | EmptyTree
    | AssetMismatch
    | NilItem(index: nat)
    | RootMismatch
    | WrongPreimage
    | InvalidPath
    | OutOfRange

  const LEFT_FLAG: Bytes := [0]
  const RIGHT_FLAG: Bytes := [1]

  function DoubleHash(sha: Sha, b: Bytes): Digest {
    sha(sha(b))
  }

  /** The effect of copying into a zeroed 32-byte buffer: truncate, or pad with zeros. */
  function Fit(b: Bytes): (f: Digest)
    ensures |b| == HASH_SIZE ==> f == b
    ensures forall i :: 0 <= i < 32 ==> f[i] == if i < |b| then b[i] else 0
  {
    if |b| >= HASH_SIZE then b[..HASH_SIZE] else b + seq(HASH_SIZE - |b|, _ => 0 as byte)
  }

  /** The 64 bytes hashed for a parent. */
  function Block(left: Digest, right: Digest): (b: Bytes)
    ensures |b| == 2 * HASH_SIZE && b[..HASH_SIZE] == left && b[HASH_SIZE..] == right
  {
    left + right
  }

  /** How two digests make their parent. */
  type Joiner = (Digest, Digest) -> Digest

  /** A parent digest as a function of its children's digests. */
  function Join(sha: Sha): Joiner {
    (left: Digest, right: Digest) => DoubleHash(sha, Block(left, right))
  }

  /** The content of a possibly nil slice. */
  function Content(slice: Option<Bytes>): Bytes {
    match slice case None => [] case Some(b) => b
  }

  function LeafHashes(sha: Sha, assets: seq<Option<Bytes>>): (leaves: seq<Digest>)
    ensures |leaves| == |assets|
    ensures forall i :: 0 <= i < |assets| ==> leaves[i] == sha(Content(assets[i]))
  {
    if assets == [] then [] else [sha(Content(assets[0]))] + LeafHashes(sha, assets[1..])
  }

  ghost predicate Holds(cell: Cell?, value: Option<Digest>) {
    match value
    case None => cell == null
    case Some(digest) => cell != null && cell.bytes == digest
  }

  /** The array stores the whole tree of the given height over the leaves, absent nodes being null. */
  ghost predicate StoresTree(join: Joiner, leaves: seq<Digest>, height: nat, tree: seq<Cell?>) {
    && |tree| == 2 * Pow2(height) - 1
    && forall i :: 0 <= i < |tree| ==> Holds(tree[i], Slot(join, leaves, Pow2(height), i))
  }

  function NextPowerOfTwo(n: nat): (r: nat)
    ensures n > 0 ==> IsPow2(r) && n <= r < 2 * n
    ensures n == 0 ==> r == 0
  {
    if n == 0 then n
    else
      PowerOfTwoTest(n);
      if BitAnd(n, n - 1) == 0 then n
      else Pow2IsPow2(FloorLog2(n) + 1); Pow2(FloorLog2(n) + 1)
  }

  /** At most one power of two lies in [n, 2n). */
  lemma NextPowerUnique(n: nat, a: nat, b: nat)
    requires n <= Pow2(a) < 2 * n && n <= Pow2(b) < 2 * n
    ensures a == b
  {
    var lo, hi := if a < b then a else b, if a < b then b else a;
    if lo < hi {
      Pow2Monotone(lo + 1, hi);
    }
  }

  lemma NextPowerIs(n: nat, k: nat)
    requires n <= Pow2(k) < 2 * n
    ensures NextPowerOfTwo(n) == Pow2(k) && FloorLog2(NextPowerOfTwo(n)) == k
  {
    var r := NextPowerOfTwo(n);
    assert IsPow2(r) && n <= r < 2 * n;
    NextPowerUnique(n, FloorLog2(r), k);
  }

  method HashMerkleBranches(sha: Sha, left: Cell, right: Cell) returns (hash: Cell)
    ensures hash.bytes == Join(sha)(Fit(left.bytes), Fit(right.bytes))
  {
    hash := new Cell(DoubleHash(sha, Block(Fit(left.bytes), Fit(right.bytes))));
  }

  /** The pointer stored above two neighbouring slots that hold l and r. */
  method ParentCell(sha: Sha, left: Cell?, right: Cell?, ghost l: Option<Digest>, ghost r: Option<Digest>)
    returns (parent: Cell?)
    requires Holds(left, l) && Holds(right, r)
    ensures Holds(parent, Parent(Join(sha), l, r))
  {
    if left == null {
      parent := null;
    } else if right == null {
      parent := HashMerkleBranches(sha, left, left);
    } else {
      parent := HashMerkleBranches(sha, left, right);
    }
  }

  lemma SlotChildren(join: Joiner, leaves: seq<Digest>, width: nat, offset: nat, i: nat)
    returns (l: Option<Digest>, r: Option<Digest>)
    requires width <= offset <= 2 * width - 2 && i == 2 * (offset - width)
    ensures l == Slot(join, leaves, width, i) && r == Slot(join, leaves, width, i + 1)
    ensures Slot(join, leaves, width, offset) == Parent(join, l, r)
  {
    l, r := Slot(join, leaves, width, i), Slot(join, leaves, width, i + 1);
  }

  /** The bottom-up pass: every slot is written before it is read. */
  method FillParents(sha: Sha, ghost join: Joiner, ghost leaves: seq<Digest>, width: nat, merkles: array<Cell?>)
    requires 1 <= width && merkles.Length == 2 * width - 1 && join == Join(sha)
    requires forall x :: 0 <= x < width ==> Holds(merkles[x], Slot(join, leaves, width, x))
    modifies merkles
    ensures forall x :: 0 <= x < merkles.Length ==> Holds(merkles[x], Slot(join, leaves, width, x))
  {
    var offset, i := width, 0;
    while i < merkles.Length - 1
      invariant 0 <= i <= merkles.Length - 1 && i == 2 * (offset - width)
      invariant forall x :: 0 <= x < offset ==> Holds(merkles[x], Slot(join, leaves, width, x))
    {
      ghost var l, r := SlotChildren(join, leaves, width, offset, i);
      var parent := ParentCell(sha, merkles[i], merkles[i + 1], l, r);
      merkles[offset] := parent;
      offset, i := offset + 1, i + 2;
    }
  }

  method BuildMerkleTreeStore(sha: Sha, assets: seq<Option<Bytes>>) returns (r: Result<seq<Cell?>, MerkleError>)
    ensures |assets| == 0 ==> r == Failure(EmptyInput)
    ensures |assets| == 1 ==>
      && r.Success? && |r.value| == 2 && r.value[0] != null && r.value[1] != null
      && r.value[0].bytes == Content(assets[0]) && r.value[1].bytes == sha(Content(assets[0]))
    ensures |assets| >= 2 && None in assets ==> r == Failure(NilLeaf)
    ensures |assets| >= 2 && None !in assets ==> r.Success? && StoresTree(Join(sha), LeafHashes(sha, assets), Height(|assets|), r.value)
  {
    if |assets| == 0 {
      return Failure(EmptyInput);
    }
    if |assets| == 1 {
      var leaf := new Cell(Content(assets[0]));
      var root := new Cell(sha(leaf.bytes));
      return Success([leaf, root]);
    }
    ghost var leaves := LeafHashes(sha, assets);
    ghost var height := Height(|leaves|);
    var nextPoT := NextPowerOfTwo(|assets|);
    NextPowerIs(|assets|, height);
    var arraySize := nextPoT * 2 - 1;
    var merkles := new Cell?[arraySize](_ => null);

    for i := 0 to |assets|
      invariant None !in assets[..i]
      invariant forall x :: 0 <= x < i ==> Holds(merkles[x], Some(leaves[x]))
      invariant forall x :: i <= x < arraySize ==> merkles[x] == null
    {
      if assets[i] == None {
        return Failure(NilLeaf);
      }
      merkles[i] := new Cell(sha(Content(assets[i])));
    }

    FillParents(sha, Join(sha), leaves, nextPoT, merkles);
    return Success(merkles[..]);
  }

  /** The index, within level k, of the node above leaf position pos. */
  function Ancestor(pos: nat, k: nat): nat {
    if k == 0 then pos else Ancestor(pos, k - 1) / 2
  }

  lemma {:induction false} AncestorInLevel(height: nat, pos: nat, k: nat)
    requires k <= height && pos < Pow2(height)
    ensures Ancestor(pos, k) < Pow2(height - k)
  {
    if k > 0 {
      AncestorInLevel(height, pos, k - 1);
    }
  }

  /** The slot of that node. */
  function PathSlot(height: nat, pos: nat, k: nat): (i: nat)
    requires k <= height && pos < Pow2(height)
    ensures i < 2 * Pow2(height) - 1
    ensures k < height && Ancestor(pos, k) % 2 == 0 ==> i + 1 < 2 * Pow2(height) - 1
    ensures Ancestor(pos, k) % 2 == 1 ==> i > 0
  {
    AncestorInLevel(height, pos, k);
    LevelStart(height, k) + Ancestor(pos, k)
  }

  /** One (direction flag, sibling) pair of a proof: the direction says on which side of the path
      the sibling sits, and a missing sibling is replaced by the path node itself. */
  ghost predicate PathStep(tree: seq<Cell?>, height: nat, pos: nat, k: nat, flag: Cell?, sibling: Cell?)
    requires |tree| == 2 * Pow2(height) - 1 && k < height && pos < Pow2(height)
  {
    var at := PathSlot(height, pos, k);
    flag != null &&
    if Ancestor(pos, k) % 2 == 0 then
      flag.bytes == RIGHT_FLAG && sibling == (if tree[at + 1] == null then tree[at] else tree[at + 1])
    else
      flag.bytes == LEFT_FLAG && sibling == tree[at - 1]
  }

  /** The (flag, sibling) pair for the path node in slot at, which is a left child exactly when even is true; none
      if an index is out of range, where the code panics. */
  method ProofStep(tree: seq<Cell?>, at: nat, even: bool, leftByte: Cell, rightByte: Cell)
    returns (step: Option<(Cell, Cell?)>)
    requires !even ==> at > 0
    ensures step == None <==> (if even then at + 1 else at - 1) >= |tree|
    ensures step.Some? && even ==>
      step.value == (rightByte, if tree[at + 1] == null then tree[at] else tree[at + 1])
    ensures step.Some? && !even ==> step.value == (leftByte, tree[at - 1])
  {
    if even {
      if at + 1 >= |tree| {
        return None;
      }
      var next := tree[at + 1];
      step := Some((rightByte, if next == null then tree[at] else next));
    } else {
      if at - 1 >= |tree| {
        return None;
      }
      step := Some((leftByte, tree[at - 1]));
    }
  }

  /** Where a path node and its right sibling lie within their level. */
  lemma PathIndex(height: nat, pos: nat, k: nat)
    requires k < height && pos < Pow2(height)
    ensures PathSlot(height, pos, k) == LevelStart(height, k) + Ancestor(pos, k)
    ensures Ancestor(pos, k) < Pow2(height - k)
    ensures Ancestor(pos, k) % 2 == 0 ==> Ancestor(pos, k) + 1 < Pow2(height - k)
  {
    AncestorInLevel(height, pos, k);
    assert Pow2(height - k) == 2 * Pow2(height - k - 1);
  }

  /** The node above a position at level k has the position divided by 2^k as its index. */
  lemma {:induction false} AncestorValue(pos: nat, k: nat)
    ensures Ancestor(pos, k) == pos / Pow2(k)
  {
    if k > 0 {
      AncestorValue(pos, k - 1);
      HalveQuotient(pos, Pow2(k - 1), Ancestor(pos, k - 1));
    }
  }

  lemma HalveQuotient(n: nat, m: nat, q: nat)
    requires m > 0 && q == n / m
    ensures q / 2 == n / (2 * m)
  {
    var half, bit := q / 2, q % 2;
    assert n == q * m + n % m;
    assert q * m == half * (2 * m) + bit * m;
    ModUnique(n, 2 * m, half, bit * m + n % m);
  }

  /** The flag a proof holds for level k is the byte 1 if the path node is a left child, as the k-th bit of the
      position says, and the byte 0 if it is a right one. */
  ghost predicate FlagAt(proof: seq<Cell?>, pos: nat, k: nat)
    requires 2 * k + 1 < |proof|
  {
    proof[2 * k + 1] != null && proof[2 * k + 1].bytes == if pos / Pow2(k) % 2 == 0 then [1] else [0]
  }

  /** How the running index variables move from one level to the next. */
  lemma NextLevel(height: nat, pos: nat, k: nat, c: nat, p: nat, leafLength: nat)
    requires k < height && p == Ancestor(pos, k) && c == LevelStart(height, k) && leafLength == Pow2(height - k)
    ensures p / 2 == Ancestor(pos, k + 1)
    ensures c + leafLength == LevelStart(height, k + 1) && leafLength / 2 == Pow2(height - (k + 1))
  {
    LevelLayout(height, k, 0);
  }

  /** The step a proof holds for level k. */
  ghost predicate PathPair(tree: seq<Cell?>, height: nat, pos: nat, k: nat, proof: seq<Cell?>)
    requires |tree| == 2 * Pow2(height) - 1 && k < height && pos < Pow2(height) && 2 * k + 2 < |proof|
  {
    PathStep(tree, height, pos, k, proof[2 * k + 1], proof[2 * k + 2])
  }

  /** The leaf and the steps of the first n levels of a proof for leaf position pos. */
  ghost predicate PathPrefix(tree: seq<Cell?>, height: nat, pos: nat, n: nat, proof: seq<Cell?>)
    requires |tree| == 2 * Pow2(height) - 1 && n <= height && pos < Pow2(height)
  {
    && |proof| == 2 * n + 1
    && proof[0] == tree[pos]
    && forall k :: 0 <= k < n ==> PathPair(tree, height, pos, k, proof)
  }

  /** A whole proof: the leaf, one step per level, and the root. */
  ghost predicate PathProof(tree: seq<Cell?>, height: nat, pos: nat, proof: seq<Cell?>)
    requires |tree| == 2 * Pow2(height) - 1 && pos < Pow2(height)
  {
    && |proof| == 2 * height + 2
    && PathPrefix(tree, height, pos, height, proof[..2 * height + 1])
    && proof[2 * height + 1] == tree[|tree| - 1]
  }

  lemma ExtendPath(tree: seq<Cell?>, height: nat, pos: nat, n: nat, proof: seq<Cell?>, flag: Cell?, sibling: Cell?)
    requires |tree| == 2 * Pow2(height) - 1 && n < height && pos < Pow2(height)
    requires PathPrefix(tree, height, pos, n, proof) && PathStep(tree, height, pos, n, flag, sibling)
    ensures PathPrefix(tree, height, pos, n + 1, proof + [flag, sibling])
  {
    var longer := proof + [flag, sibling];
    forall k | 0 <= k < n + 1
      ensures PathPair(tree, height, pos, k, longer)
    {
      if k < n {
        assert PathPair(tree, height, pos, k, proof);
        assert longer[2 * k + 1] == proof[2 * k + 1] && longer[2 * k + 2] == proof[2 * k + 2];
      }
    }
  }

  /** The array's length determines the height. */
  lemma TreeHeight(height: nat, length: nat)
    requires height > 0 && length == 2 * Pow2(height) - 1
    ensures FloorLog2(NextPowerOfTwo(length)) == height + 1
  {
    NextPowerIs(length, height + 1);
  }

  /** Every path from a leaf slot ends in the last slot. */
  lemma PathEnd(height: nat, pos: nat)
    requires pos < Pow2(height)
    ensures Ancestor(pos, height) == 0 && LevelStart(height, height) == 2 * Pow2(height) - 2
  {
    AncestorInLevel(height, pos, height);
  }

  /** A path from beyond the leaf slots never comes back into the levels it is looked up in. */
  lemma {:induction false} AncestorBeyond(height: nat, pos: nat, k: nat)
    requires k <= height && pos >= Pow2(height)
    ensures Ancestor(pos, k) >= Pow2(height - k)
  {
    if k > 0 {
      AncestorBeyond(height, pos, k - 1);
    }
  }

  lemma FinishPath(tree: seq<Cell?>, height: nat, pos: nat, prefix: seq<Cell?>)
    requires |tree| == 2 * Pow2(height) - 1 && pos < Pow2(height) && PathPrefix(tree, height, pos, height, prefix)
    ensures PathProof(tree, height, pos, prefix + [tree[|tree| - 1]])
  {
    assert (prefix + [tree[|tree| - 1]])[..2 * height + 1] == prefix;
  }

  lemma FlagsOf(tree: seq<Cell?>, height: nat, pos: nat, proof: seq<Cell?>)
    requires |tree| == 2 * Pow2(height) - 1 && pos < Pow2(height) && PathProof(tree, height, pos, proof)
    ensures forall k :: 0 <= k < height ==> FlagAt(proof, pos, k)
  {
    forall k | 0 <= k < height
      ensures FlagAt(proof, pos, k)
    {
      var prefix := proof[..2 * height + 1];
      assert PathPair(tree, height, pos, k, prefix) && prefix[2 * k + 1] == proof[2 * k + 1];
      AncestorValue(pos, k);
    }
  }

  /** Where the loop is after i levels of an array that has the length of a tree's. */
  ghost predicate Walked(tree: seq<Cell?>, height: nat, pos: nat, i: nat, c: nat, p: nat, leafLength: nat, proof: seq<Cell?>) {
    && |tree| == 2 * Pow2(height) - 1 && i <= height
    && p == Ancestor(pos, i) && c == LevelStart(height, i) && leafLength == Pow2(height - i)
    && (pos < Pow2(height) ==> PathPrefix(tree, height, pos, i, proof))
  }

  /** A step from a leaf slot's path is in range and is the proof's step for that level. */
  lemma WalkStep(tree: seq<Cell?>, height: nat, pos: nat, i: nat, c: nat, p: nat, leafLength: nat, proof: seq<Cell?>)
    requires Walked(tree, height, pos, i, c, p, leafLength, proof) && i < height && pos < Pow2(height)
    ensures p + c < |tree| && (p % 2 == 0 ==> p + c + 1 < |tree|)
    ensures p + c == PathSlot(height, pos, i)
  {
    PathIndex(height, pos, i);
  }

  lemma WalkOn(tree: seq<Cell?>, height: nat, pos: nat, i: nat, c: nat, p: nat, leafLength: nat, proof: seq<Cell?>,
               flag: Cell, sibling: Cell?)
    requires Walked(tree, height, pos, i, c, p, leafLength, proof) && i < height
    requires pos < Pow2(height) ==> PathStep(tree, height, pos, i, flag, sibling)
    ensures Walked(tree, height, pos, i + 1, c + leafLength, p / 2, leafLength / 2, proof + [flag, sibling])
  {
    NextLevel(height, pos, i, c, p, leafLength);
    if pos < Pow2(height) {
      ExtendPath(tree, height, pos, i, proof, flag, sibling);
    }
  }

  /** At the end of the walk the index is in range exactly if it started at a leaf slot. */
  lemma WalkEnds(tree: seq<Cell?>, height: nat, pos: nat, c: nat, p: nat, leafLength: nat, proof: seq<Cell?>)
    requires Walked(tree, height, pos, height, c, p, leafLength, proof)
    ensures if pos < Pow2(height) then p + c == |tree| - 1 && PathProof(tree, height, pos, proof + [tree[|tree| - 1]])
            else p + c >= |tree|
  {
    if pos < Pow2(height) {
      PathEnd(height, pos);
      FinishPath(tree, height, pos, proof);
    } else {
      AncestorBeyond(height, pos, height);
    }
  }

  /** The proof for one position. In an array as long as a tree's, an index leaves its range exactly when the
      position is not a leaf slot. */
  method PathTo(pos: nat, tree: seq<Cell?>, ghost height: nat) returns (r: Result<seq<Cell?>, MerkleError>)
    requires |tree| > 2 && pos < |tree|
    ensures r.Failure? ==> r.error == OutOfRange
    ensures |tree| == 2 * Pow2(height) - 1 ==>
      if pos < Pow2(height) then r.Success? && PathProof(tree, height, pos, r.value) else r.Failure?
  {
    var leftByte := new Cell(LEFT_FLAG);
    var rightByte := new Cell(RIGHT_FLAG);
    var leafLength: nat := (|tree| + 1) / 2;
    var treeHeight := FloorLog2(NextPowerOfTwo(|tree|));
    var proof := [tree[pos]];
    var c: nat, p: nat := 0, pos;
    ghost var shaped := |tree| == 2 * Pow2(height) - 1;
    if shaped {
      TreeHeight(height, |tree|);
    }
    for i := 0 to treeHeight - 1
      invariant shaped ==> treeHeight == height + 1 && Walked(tree, height, pos, i, c, p, leafLength, proof)
    {
      if shaped && pos < Pow2(height) {
        WalkStep(tree, height, pos, i, c, p, leafLength, proof);
      }
      var step := ProofStep(tree, p + c, p % 2 == 0, leftByte, rightByte);
      if step == None {
        return Failure(OutOfRange);
      }
      var (flag, sibling) := step.value;
      if shaped {
        WalkOn(tree, height, pos, i, c, p, leafLength, proof, flag, sibling);
      }
      proof := proof + [flag, sibling];
      c, p, leafLength := c + leafLength, p / 2, leafLength / 2;
    }
    if shaped {
      WalkEnds(tree, height, pos, c, p, leafLength, proof);
    }
    if p + c >= |tree| {
      return Failure(OutOfRange);
    }
    return Success(proof + [tree[p + c]]);
  }

  /** OutOfRange stands for the panic of an index out of range. */
  method GenerateProofFromTree(asset: Cell?, pos: int, tree: seq<Cell?>, ghost height: nat)
    returns (r: Result<seq<Cell?>, MerkleError>)
    ensures r == Failure(EmptyTree) <==> |tree| < 2
    ensures |tree| >= 2 && !(0 <= pos < |tree|) ==> r == Failure(OutOfRange)
    ensures r == Failure(AssetMismatch) <==> |tree| >= 2 && 0 <= pos < |tree| && asset != tree[pos]
    ensures |tree| == 2 && 0 <= pos < 2 && asset == tree[pos] ==> r == Success(tree)
    ensures |tree| > 2 && |tree| == 2 * Pow2(height) - 1 && 0 <= pos < |tree| && asset == tree[pos] ==>
      if pos < Pow2(height) then r.Success? && PathProof(tree, height, pos, r.value) else r == Failure(OutOfRange)
    ensures |tree| > 2 && |tree| == 2 * Pow2(height) - 1 && 0 <= pos < Pow2(height) && r.Success? ==>
      forall k :: 0 <= k < height ==> FlagAt(r.value, pos, k)
  {
    if |tree| < 2 {
      return Failure(EmptyTree);
    }
    if pos < 0 || pos >= |tree| {
      return Failure(OutOfRange);
    }
    if asset != tree[pos] {
      return Failure(AssetMismatch);
    }
    if |tree| == 2 {
      assert tree == [tree[0], tree[1]];
      return Success([tree[0], tree[1]]);
    }
    r := PathTo(pos, tree, height);
    if |tree| == 2 * Pow2(height) - 1 && pos < Pow2(height) {
      FlagsOf(tree, height, pos, r.value);
    }
  }

  method CopyProof(proof: seq<Cell?>) returns (r: Result<seq<Bytes>, MerkleError>)
    ensures r.Success? <==> null !in proof
    ensures r.Success? ==> |r.value| == |proof| && forall i :: 0 <= i < |proof| ==> r.value[i] == proof[i].bytes
    ensures r.Failure? ==> exists i :: 0 <= i < |proof| && proof[i] == null && null !in proof[..i] && r == Failure(NilItem(i))
  {
    var copy: seq<Bytes> := [];
    for i := 0 to |proof|
      invariant null !in proof[..i]
      invariant |copy| == i && forall x :: 0 <= x < i ==> copy[x] == proof[x].bytes
    {
      var item := proof[i];
      if item == null {
        return Failure(NilItem(i));
      }
      copy := copy + [item.bytes];
    }
    return Success(copy);
  }

  /** One recognised step of a proof: a sibling, and whether it sits left of the path. */
  datatype Move = Move(siblingOnLeft: bool, sibling: Bytes)

  /** The recognised steps among the first i pairs; a pair with any other flag is skipped. */
  function Moves(args: seq<Bytes>, i: nat): seq<Move>
    requires 2 * i < |args|
  {
    if i == 0 then []
    else
      var earlier := Moves(args, i - 1);
      if args[2 * i - 1] == LEFT_FLAG then earlier + [Move(true, args[2 * i])]
      else if args[2 * i - 1] == RIGHT_FLAG then earlier + [Move(false, args[2 * i])]
      else earlier
  }

  /** Climbing from a leaf along a list of moves. */
  function Climb(join: Joiner, leaf: Bytes, moves: seq<Move>): Bytes {
    if moves == [] then leaf
    else
      var m, below := moves[|moves| - 1], Fit(Climb(join, leaf, moves[..|moves| - 1]));
      if m.siblingOnLeft then join(Fit(m.sibling), below) else join(below, Fit(m.sibling))
  }

  lemma ClimbStep(join: Joiner, leaf: Bytes, moves: seq<Move>, m: Move)
    ensures Climb(join, leaf, moves + [m]) ==
      if m.siblingOnLeft then join(Fit(m.sibling), Fit(Climb(join, leaf, moves)))
      else join(Fit(Climb(join, leaf, moves)), Fit(m.sibling))
  {
    assert (moves + [m])[..|moves|] == moves;
  }

  /** The number of (flag, sibling) pairs Verify looks at. */
  function Pairs(args: seq<Bytes>): (n: nat)
    requires args != []
    ensures 2 * n < |args|
  {
    if |args| < 2 then 0 else |args| / 2 - 1
  }

  /** The argument list ends in the root, and climbing along its recognised steps reaches it. */
  predicate Reaches(join: Joiner, root: Bytes, args: seq<Bytes>)
    requires args != []
  {
    root == args[|args| - 1] == Climb(join, args[0], Moves(args, Pairs(args)))
  }

  /** What a list of proof elements has to satisfy to be accepted for a root. */
  predicate Accepts(sha: Sha, root: Bytes, args: seq<Bytes>)
    requires args != []
  {
    if |args| == 2 then root == args[1] == sha(args[0]) else Reaches(Join(sha), root, args)
  }

  /** A proof with one step: the flag byte 0 has the sibling hashed first, the byte 1 second, any other not at all. */
  lemma OneStep(sha: Sha, root: Bytes, a: Digest, flag: Bytes, b: Digest)
    ensures Accepts(sha, root, [a, flag, b, root]) <==>
      root == if flag == [0] then sha(sha(b + a)) else if flag == [1] then sha(sha(a + b)) else a
  {
    var args := [a, flag, b, root];
    assert Moves(args, 0) == [] && Pairs(args) == 1;
    assert Climb(Join(sha), a, []) == a;
    ClimbStep(Join(sha), a, [], Move(true, b));
    ClimbStep(Join(sha), a, [], Move(false, b));
    assert [] + [Move(true, b)] == [Move(true, b)] && [] + [Move(false, b)] == [Move(false, b)];
  }

  lemma RecognisedMove(args: seq<Bytes>, k: nat, flag: Bytes)
    requires 2 * k + 2 < |args| && flag == args[2 * k + 1] && (flag == LEFT_FLAG || flag == RIGHT_FLAG)
    ensures Moves(args, k + 1) == Moves(args, k) + [Move(flag == LEFT_FLAG, args[2 * k + 2])]
  {
  }

  /** Folding over the (flag, sibling) pairs; a pair with an unknown flag changes nothing. */
  method Fold(sha: Sha, args: seq<Bytes>) returns (res: Bytes)
    requires args != []
    ensures res == Climb(Join(sha), args[0], Moves(args, Pairs(args)))
  {
    res := args[0];
    var i := 0;
    while i < |args| / 2 - 1
      invariant 0 <= i <= Pairs(args)
      invariant res == Climb(Join(sha), args[0], Moves(args, i))
    {
      var flag, sibling := args[2 * i + 1], args[2 * i + 2];
      if flag == LEFT_FLAG {
        RecognisedMove(args, i, flag);
        ClimbStep(Join(sha), args[0], Moves(args, i), Move(true, sibling));
        res := DoubleHash(sha, Block(Fit(sibling), Fit(res)));
      } else if flag == RIGHT_FLAG {
        RecognisedMove(args, i, flag);
        ClimbStep(Join(sha), args[0], Moves(args, i), Move(false, sibling));
        res := DoubleHash(sha, Block(Fit(res), Fit(sibling)));
      }
      i := i + 1;
    }
  }

  method Verify(sha: Sha, root: Bytes, args: seq<Bytes>) returns (err: Option<MerkleError>)
    ensures err == Some(OutOfRange) <==> args == []
    ensures err == None <==> args != [] && Accepts(sha, root, args)
    ensures err == Some(RootMismatch) <==> args != [] && root != args[|args| - 1]
    ensures err == Some(WrongPreimage) <==> |args| == 2 && root == args[1] && !Accepts(sha, root, args)
    ensures err == Some(InvalidPath) <==>
      args != [] && |args| != 2 && root == args[|args| - 1] && !Accepts(sha, root, args)
  {
    if args == [] {
      return Some(OutOfRange);
    }
    if root != args[|args| - 1] {
      return Some(RootMismatch);
    }
    if |args| == 2 {
      var test := sha(args[0]);
      return if test == root then None else Some(WrongPreimage);
    }
    var res := Fold(sha, args);
    return if res != root then Some(InvalidPath) else None;
  }
}
