/** What a Merkle root fixes: when two lists of leaves, of any two lengths, have the same root. */
module MerkleBinding {
  import opened Bits
  import opened ByteStrings
  import opened MerkleSpec
  import opened MerkleTree
  import opened MerkleProofs

  // ---------- Lists of one height ----------

  /** All 2^k leaf slots of a tree of height k, the duplicates of missing right halves filled in. */
  function Expand<T>(leaves: seq<T>, k: nat): (all: seq<T>)
    requires 0 < |leaves| <= Pow2(k)
    ensures |all| == Pow2(k)
    decreases k
  {
    if k == 0 then leaves
    else
      var half := Pow2(k - 1);
      if |leaves| <= half then Expand(leaves, k - 1) + Expand(leaves, k - 1)
      else Expand(leaves[..half], k - 1) + Expand(leaves[half..], k - 1)
  }

  /** The slots begin with the leaves themselves. */
  lemma {:induction false} ExpandStarts<T>(leaves: seq<T>, k: nat)
    requires 0 < |leaves| <= Pow2(k)
    ensures Expand(leaves, k)[..|leaves|] == leaves
    decreases k
  {
    if k > 0 {
      var half := Pow2(k - 1);
      if |leaves| <= half {
        ExpandStarts(leaves, k - 1);
      } else {
        ExpandStarts(leaves[..half], k - 1);
        ExpandStarts(leaves[half..], k - 1);
        assert leaves == leaves[..half] + leaves[half..];
      }
    }
  }

  /** Filling in the duplicates keeps the root. */
  lemma {:induction false} ExpandKeepsRoot<T>(join: (T, T) -> T, leaves: seq<T>, k: nat)
    requires 0 < |leaves| <= Pow2(k)
    ensures SubRoot(join, Expand(leaves, k), k) == SubRoot(join, leaves, k)
    decreases k
  {
    if k > 0 {
      var half, all := Pow2(k - 1), Expand(leaves, k);
      var left, right := if |leaves| <= half then leaves else leaves[..half], if |leaves| <= half then leaves else leaves[half..];
      ExpandKeepsRoot(join, left, k - 1);
      ExpandKeepsRoot(join, right, k - 1);
      assert all[..half] == Expand(left, k - 1) && all[half..] == Expand(right, k - 1);
    }
  }

  /** Where two lists with the same root fill their slots differently, some pair of nodes collides. */
  function FindDifference(sha: Sha, a: seq<Digest>, b: seq<Digest>, k: nat): (c: Option<(Bytes, Bytes)>)
    requires 0 < |a| <= Pow2(k) && 0 < |b| <= Pow2(k)
    requires SubRoot(Join(sha), a, k) == SubRoot(Join(sha), b, k)
    ensures c == None ==> Expand(a, k) == Expand(b, k)
    ensures c.Some? ==> IsCollision(sha, c.value.0, c.value.1)
    decreases k
  {
    if k == 0 then None
    else
      var x, y := RootBlock(sha, a, k - 1), RootBlock(sha, b, k - 1);
      if x != y then Some((x, y))
      else
        var (aLeft, aRight) := Halves(a, k - 1);
        var (bLeft, bRight) := Halves(b, k - 1);
        var left := FindDifference(sha, aLeft, bLeft, k - 1);
        if left.Some? then left else FindDifference(sha, aRight, bRight, k - 1)
  }

  /** Equally long lists with the same root are equal, or here is a collision. */
  function FindCollision(sha: Sha, a: seq<Digest>, b: seq<Digest>, k: nat): (c: Option<(Bytes, Bytes)>)
    requires 0 < |a| == |b| <= Pow2(k)
    requires SubRoot(Join(sha), a, k) == SubRoot(Join(sha), b, k)
    ensures c == None ==> a == b
    ensures c.Some? ==> IsCollision(sha, c.value.0, c.value.1)
  {
    ExpandStarts(a, k);
    ExpandStarts(b, k);
    FindDifference(sha, a, b, k)
  }

  // ---------- Lists of different heights ----------

  /** The node above nodes 2i and 2i + 1, the former standing in for the latter if that is missing. */
  function ParentAt<T>(join: (T, T) -> T, nodes: seq<T>, i: nat): T
    requires 2 * i < |nodes|
  {
    join(nodes[2 * i], nodes[if 2 * i + 1 < |nodes| then 2 * i + 1 else 2 * i])
  }

  /** The nodes one level above the given ones. */
  function ParentLevel<T>(join: (T, T) -> T, nodes: seq<T>): (parents: seq<T>)
    ensures |parents| == (|nodes| + 1) / 2
    ensures forall i :: 0 <= i < |parents| ==> parents[i] == ParentAt(join, nodes, i)
  {
    seq((|nodes| + 1) / 2, i requires 0 <= i < (|nodes| + 1) / 2 => ParentAt(join, nodes, i))
  }

  lemma ParentNode<T>(join: (T, T) -> T, nodes: seq<T>, j: nat)
    ensures Node(join, ParentLevel(join, nodes), 0, j) == Node(join, nodes, 1, j)
  {
    assert Node(join, nodes, 1, j) == Parent(join, Node(join, nodes, 0, 2 * j), Node(join, nodes, 0, 2 * j + 1));
  }

  /** Levels above the parents are levels above the nodes, counted from one lower. */
  lemma {:induction false} ParentsShiftLevels<T>(join: (T, T) -> T, nodes: seq<T>, parents: seq<T>, k: nat, j: nat)
    requires parents == ParentLevel(join, nodes)
    ensures Node(join, parents, k, j) == Node(join, nodes, k + 1, j)
    decreases k
  {
    if k == 0 {
      ParentNode(join, nodes, j);
    } else {
      ParentsShiftLevels(join, nodes, parents, k - 1, 2 * j);
      ParentsShiftLevels(join, nodes, parents, k - 1, 2 * j + 1);
    }
  }

  /** The parents have the same root one level lower. */
  lemma ParentsKeepRoot<T>(join: (T, T) -> T, nodes: seq<T>, parents: seq<T>, k: nat)
    requires 0 < |nodes| <= Pow2(k + 1) && parents == ParentLevel(join, nodes)
    ensures 0 < |parents| <= Pow2(k) && SubRoot(join, parents, k) == SubRoot(join, nodes, k + 1)
  {
    ParentsShiftLevels(join, nodes, parents, k, 0);
    TopNode(join, nodes, k + 1);
    TopNode(join, parents, k);
  }

  /** The nodes m levels above the leaves. */
  function Lift<T>(join: (T, T) -> T, leaves: seq<T>, m: nat): seq<T>
    decreases m
  {
    if m == 0 then leaves else Lift(join, ParentLevel(join, leaves), m - 1)
  }

  lemma {:induction false} LiftStep<T>(join: (T, T) -> T, leaves: seq<T>, parents: seq<T>, k: nat, m: nat)
    requires m > 0 && 0 < |leaves| <= Pow2(k + m) && parents == ParentLevel(join, leaves)
    ensures 0 < |Lift(join, parents, m - 1)| <= Pow2(k)
    ensures SubRoot(join, Lift(join, parents, m - 1), k) == SubRoot(join, leaves, k + m)
    decreases m, 0
  {
    var below := k + (m - 1);
    ParentsKeepRoot(join, leaves, parents, below);
    LiftKeepsRoot(join, parents, k, m - 1);
  }

  lemma {:induction false} LiftKeepsRoot<T>(join: (T, T) -> T, leaves: seq<T>, k: nat, m: nat)
    requires 0 < |leaves| <= Pow2(k + m)
    ensures 0 < |Lift(join, leaves, m)| <= Pow2(k)
    ensures SubRoot(join, Lift(join, leaves, m), k) == SubRoot(join, leaves, k + m)
    decreases m, 1
  {
    if m > 0 {
      LiftStep(join, leaves, ParentLevel(join, leaves), k, m);
    }
  }

  /** What a root fixes, exactly, for lists of any two lengths: the roots are equal if the slots of the lower tree
      are filled as the nodes of the higher tree at that height fill them, and only if, or here is a collision. */
  lemma RootBinding(sha: Sha, a: seq<Digest>, b: seq<Digest>, k: nat, m: nat)
    requires 0 < |a| <= Pow2(k) && 0 < |b| <= Pow2(k + m)
    ensures 0 < |Lift(Join(sha), b, m)| <= Pow2(k)
    ensures SubRoot(Join(sha), Lift(Join(sha), b, m), k) == SubRoot(Join(sha), b, k + m)
    ensures Expand(a, k) == Expand(Lift(Join(sha), b, m), k) ==> SubRoot(Join(sha), a, k) == SubRoot(Join(sha), b, k + m)
    ensures SubRoot(Join(sha), a, k) == SubRoot(Join(sha), b, k + m) ==>
              Expand(a, k) == Expand(Lift(Join(sha), b, m), k) || FindDifference(sha, a, Lift(Join(sha), b, m), k).Some?
  {
    LiftKeepsRoot(Join(sha), b, k, m);
    var lifted := Lift(Join(sha), b, m);
    ExpandKeepsRoot(Join(sha), a, k);
    ExpandKeepsRoot(Join(sha), lifted, k);
  }

  // ---------- Lists that share a root ----------

  lemma ExpandHalves<T>(leaves: seq<T>, k: nat, half: nat, low: seq<T>, high: seq<T>)
    requires k > 0 && half == Pow2(k - 1) && half < |leaves| <= 2 * half
    requires low == leaves[..half] && high == leaves[half..]
    ensures Expand(leaves, k) == Expand(low, k - 1) + Expand(high, k - 1)
  {
  }

  /** The root does not bind the number of leaves: repeating the last leaf of a list of odd length
      leaves the slots as they were. */
  lemma {:induction false} RepeatedLeafExpands<T>(leaves: seq<T>, last: T, k: nat)
    requires |leaves| % 2 == 1 && |leaves| < Pow2(k) && last == leaves[|leaves| - 1]
    ensures Expand(leaves + [last], k) == Expand(leaves, k)
    decreases k
  {
    var half, longer := Pow2(k - 1), leaves + [last];
    if k == 1 {
      assert longer[..1] == leaves && longer[1..] == leaves;
    } else {
      assert half == 2 * Pow2(k - 2);
      if |leaves| < half {
        RepeatedLeafExpands(leaves, last, k - 1);
      } else {
        var low, high := leaves[..half], leaves[half..];
        RepeatedLeafExpands(high, last, k - 1);
        assert longer[..half] == low && longer[half..] == high + [last];
        ExpandHalves(leaves, k, half, low, high);
        ExpandHalves(longer, k, half, low, high + [last]);
      }
    }
  }

  lemma RepeatedLastLeafKeepsRoot(sha: Sha, leaves: seq<Digest>)
    requires |leaves| >= 3 && |leaves| % 2 == 1
    ensures Root(Join(sha), leaves + [leaves[|leaves| - 1]]) == Root(Join(sha), leaves)
  {
    var k, longer := Height(|leaves|), leaves + [leaves[|leaves| - 1]];
    assert Pow2(k) % 2 == 0;
    NextPowerUnique(|longer|, k, Height(|longer|));
    RepeatedLeafExpands(leaves, leaves[|leaves| - 1], k);
    ExpandKeepsRoot(Join(sha), leaves, k);
    ExpandKeepsRoot(Join(sha), longer, k);
  }

  /** What the parent of two leaves is the double hash of, hashed once. */
  function ParentAsset(sha: Sha, leaves: seq<Digest>, i: nat): (asset: Bytes)
    requires 2 * i < |leaves|
    ensures sha(asset) == ParentAt(Join(sha), leaves, i)
  {
    sha(Block(leaves[2 * i], leaves[if 2 * i + 1 < |leaves| then 2 * i + 1 else 2 * i]))
  }

  /** The assets whose hashes are the parents of the given leaves. */
  function ParentAssets(sha: Sha, leaves: seq<Digest>): (assets: seq<Option<Bytes>>)
    ensures |assets| == (|leaves| + 1) / 2
    ensures forall i :: 0 <= i < |assets| ==> assets[i] == Some(ParentAsset(sha, leaves, i))
  {
    seq((|leaves| + 1) / 2, i requires 0 <= i < (|leaves| + 1) / 2 => Some(ParentAsset(sha, leaves, i)))
  }

  lemma HalfHeight(n: nat)
    requires n >= 2
    ensures Height(n) == Height((n + 1) / 2) + 1
  {
    var k := Height(n);
    assert k > 0 && Pow2(k) == 2 * Pow2(k - 1);
    NextPowerUnique((n + 1) / 2, k - 1, Height((n + 1) / 2));
  }

  lemma ParentAssetsHash(sha: Sha, leaves: seq<Digest>, assets: seq<Option<Bytes>>)
    requires assets == ParentAssets(sha, leaves)
    ensures LeafHashes(sha, assets) == ParentLevel(Join(sha), leaves)
  {
    var hashes, parents := LeafHashes(sha, assets), ParentLevel(Join(sha), leaves);
    forall i | 0 <= i < |parents|
      ensures hashes[i] == parents[i]
    {
      assert assets[i] == Some(ParentAsset(sha, leaves, i));
    }
  }

  /** Nor does the root bind the height of the tree: what its inner nodes are hashes of can be leaves themselves. */
  lemma ParentsAsLeavesKeepRoot(sha: Sha, leaves: seq<Digest>)
    requires |leaves| >= 2
    ensures Root(Join(sha), LeafHashes(sha, ParentAssets(sha, leaves))) == Root(Join(sha), leaves)
  {
    ParentAssetsHash(sha, leaves, ParentAssets(sha, leaves));
    ParentsHaveRoot(Join(sha), leaves, ParentLevel(Join(sha), leaves));
  }

  lemma ParentsHaveRoot<T>(join: (T, T) -> T, leaves: seq<T>, parents: seq<T>)
    requires |leaves| >= 2 && parents == ParentLevel(join, leaves)
    ensures Root(join, parents) == Root(join, leaves)
  {
    HalfHeight(|leaves|);
    var k := Height(|parents|);
    ParentsKeepRoot(join, leaves, parents, k);
  }

  // ---------- Shorter proofs ----------

  /** A proof that lacks the steps of the lowest levels proves a node of the first level it covers, or yields a
      collision: its first element need not be a leaf. */
  lemma SoundnessAbove(sha: Sha, leaves: seq<Digest>, height: nat, level: nat, args: seq<Bytes>)
    requires 0 < |leaves| <= Pow2(height) && level < height && args != []
    requires Accepts(sha, SubRoot(Join(sha), leaves, height), args)
    requires |Moves(args, Pairs(args))| == height - level
    ensures var nodes, moves := Lift(Join(sha), leaves, level), Moves(args, Pairs(args));
      && 0 < |nodes| <= Pow2(height - level)
      && Node(Join(sha), nodes, |moves|, 0) == Some(Fit(Climb(Join(sha), args[0], moves)))
      && Convincing(sha, nodes, args[0], moves, 0, Extract(sha, nodes, args[0], moves, 0))
  {
    LiftKeepsRoot(Join(sha), leaves, height - level, level);
    Soundness(sha, Lift(Join(sha), leaves, level), height - level, args);
  }

  // ---------- Longer proofs ----------

  lemma {:induction false} ClimbSplits(join: Joiner, leaf: Bytes, low: seq<Move>, high: seq<Move>)
    ensures Climb(join, leaf, low + high) == Climb(join, Climb(join, leaf, low), high)
    decreases |high|
  {
    if high == [] {
      assert low + high == low;
    } else {
      var init, last := high[..|high| - 1], high[|high| - 1];
      ClimbSplits(join, leaf, low, init);
      ClimbStep(join, leaf, low + init, last);
      assert low + high == low + init + [last];
    }
  }

  lemma ClimbFrom(join: Joiner, leaf: Bytes, moves: seq<Move>, extra: nat)
    requires extra <= |moves|
    ensures Climb(join, leaf, moves) == Climb(join, Climb(join, leaf, moves[..extra]), moves[extra..])
  {
    ClimbSplits(join, leaf, moves[..extra], moves[extra..]);
    assert moves == moves[..extra] + moves[extra..];
  }

  /** A proof with more steps than the tree has levels proves that what its extra steps climb to is the leaf that the
      others name, or yields a collision. */
  lemma SoundnessBelow(sha: Sha, leaves: seq<Digest>, height: nat, extra: nat, args: seq<Bytes>, high: seq<Move>, start: Bytes)
    requires 0 < |leaves| <= Pow2(height) && height > 0 && args != []
    requires Accepts(sha, SubRoot(Join(sha), leaves, height), args)
    requires |Moves(args, Pairs(args))| == height + extra && high == Moves(args, Pairs(args))[extra..]
    requires start == Climb(Join(sha), args[0], Moves(args, Pairs(args))[..extra])
    ensures Node(Join(sha), leaves, |high|, 0) == Some(Fit(Climb(Join(sha), start, high)))
    ensures Convincing(sha, leaves, start, high, 0, Extract(sha, leaves, start, high, 0))
  {
    ClimbFrom(Join(sha), args[0], Moves(args, Pairs(args)), extra);
    TopNode(Join(sha), leaves, height);
  }
}
