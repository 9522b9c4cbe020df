/** What a Merkle tree over a list of leaf digests means, independently of the linear array
    that stores it, and how the array's index arithmetic relates to that meaning.
    Nodes are of any type, and `join` is any function that makes a parent of two children. */
module MerkleSpec {
  import opened Bits
  import opened ByteStrings

  /** The root of a tree of height k over 1 to 2^k leaves, top down: split at half the width;
      when the right half has no leaves the left root is paired with itself. */
  function SubRoot<T>(join: (T, T) -> T, leaves: seq<T>, k: nat): T
    requires 0 < |leaves| <= Pow2(k)
    decreases k
  {
    if k == 0 then leaves[0]
    else
      var half := Pow2(k - 1);
      if |leaves| <= half then
        var left := SubRoot(join, leaves, k - 1);
        join(left, left)
      else
        join(SubRoot(join, leaves[..half], k - 1), SubRoot(join, leaves[half..], k - 1))
  }

  /** The height of the tree over n leaves: the least k with n <= 2^k. */
  function Height(n: nat): (k: nat)
    requires n > 0
    ensures n <= Pow2(k) < 2 * n
  {
    if IsPow2(n) then FloorLog2(n) else FloorLog2(n) + 1
  }

  function Root<T>(join: (T, T) -> T, leaves: seq<T>): T
    requires leaves != []
  {
    SubRoot(join, leaves, Height(|leaves|))
  }

  /** The first leaf position below node j of level k. */
  function FirstLeaf(k: nat, j: nat): nat {
    if k == 0 then j else FirstLeaf(k - 1, 2 * j)
  }

  lemma {:induction false} FirstLeafValue(k: nat, j: nat)
    ensures FirstLeaf(k, j) == j * Pow2(k)
  {
    if k > 0 {
      FirstLeafValue(k - 1, 2 * j);
      assert 2 * j * Pow2(k - 1) == j * Pow2(k);
    }
  }

  lemma NextFirstLeaf(k: nat, j: nat)
    ensures FirstLeaf(k, j + 1) == FirstLeaf(k, j) + Pow2(k)
    ensures j == 0 ==> FirstLeaf(k, j) == 0
  {
    FirstLeafValue(k, j);
    FirstLeafValue(k, j + 1);
  }

  /** The at most `size` elements from position `lo`. */
  function Span<T>(s: seq<T>, lo: nat, size: nat): seq<T> {
    if lo + size <= |s| then s[lo..lo + size] else if lo <= |s| then s[lo..] else []
  }

  /** The leaves below node j of level k. */
  function Below<T>(leaves: seq<T>, k: nat, j: nat): seq<T> {
    Span(leaves, FirstLeaf(k, j), Pow2(k))
  }

  /** What the builder stores above two neighbouring slots. */
  function Parent<T>(join: (T, T) -> T, left: Option<T>, right: Option<T>): Option<T> {
    match (left, right)
    case (None, _) => None
    case (Some(l), None) => Some(join(l, l))
    case (Some(l), Some(r)) => Some(join(l, r))
  }

  /** Node j of level k, counted from the leaves; absent when it covers no leaf. */
  function Node<T>(join: (T, T) -> T, leaves: seq<T>, k: nat, j: nat): Option<T> {
    if k == 0 then (if j < |leaves| then Some(leaves[j]) else None)
    else Parent(join, Node(join, leaves, k - 1, 2 * j), Node(join, leaves, k - 1, 2 * j + 1))
  }

  /** Slot i of the linear array over `width` leaf slots, as the bottom-up builder defines it. */
  function Slot<T>(join: (T, T) -> T, leaves: seq<T>, width: nat, i: nat): Option<T>
    requires i <= 2 * width - 2
    decreases i
  {
    if i < width then (if i < |leaves| then Some(leaves[i]) else None)
    else Parent(join, Slot(join, leaves, width, 2 * (i - width)), Slot(join, leaves, width, 2 * (i - width) + 1))
  }

  /** Index of the first slot of level k in the array of a tree of height `height`. */
  function LevelStart(height: nat, k: nat): (start: nat)
    requires k <= height
    ensures k == 0 ==> start == 0
  {
    Pow2Monotone(height - k, height);
    2 * Pow2(height) - 2 * Pow2(height - k)
  }

  /** A level follows the previous one directly, and the parent of the node in slot i is in slot 2^height + i/2. */
  lemma LevelLayout(height: nat, k: nat, j: nat)
    requires k < height && j < Pow2(height - k)
    ensures LevelStart(height, k + 1) == LevelStart(height, k) + Pow2(height - k)
    ensures Pow2(height) + (LevelStart(height, k) + j) / 2 == LevelStart(height, k + 1) + j / 2
  {
    assert Pow2(height - k) == 2 * Pow2(height - k - 1);
    assert LevelStart(height, k) == 2 * (Pow2(height) - Pow2(height - k));
  }

  /** Level k holds ceil(n / 2^k) nodes, and they form a prefix of the level. */
  lemma LevelPrefix<T>(join: (T, T) -> T, leaves: seq<T>, k: nat, j: nat)
    ensures Node(join, leaves, k, j).Some? <==> j < (|leaves| + Pow2(k) - 1) / Pow2(k)
  {
    NodeIsSubRoot(join, leaves, k, j);
    FirstLeafValue(k, j);
    CeilingBound(|leaves|, Pow2(k), j);
  }

  /** A node is the top-down root over the leaves below it, and is absent when there are none. */
  lemma {:induction false} NodeIsSubRoot<T>(join: (T, T) -> T, leaves: seq<T>, k: nat, j: nat)
    ensures Node(join, leaves, k, j) ==
      if Below(leaves, k, j) == [] then None else Some(SubRoot(join, Below(leaves, k, j), k))
  {
    if k > 0 {
      NodeIsSubRoot(join, leaves, k - 1, 2 * j);
      NodeIsSubRoot(join, leaves, k - 1, 2 * j + 1);
      NextFirstLeaf(k - 1, 2 * j);
      SpanSplits(leaves, FirstLeaf(k, j), Pow2(k - 1));
    }
  }

  lemma SpanSplits<T>(s: seq<T>, lo: nat, half: nat)
    requires half > 0
    ensures var whole, left, right := Span(s, lo, 2 * half), Span(s, lo, half), Span(s, lo + half, half);
      && whole == left + right
      && (|whole| <= half ==> whole == left && right == [])
      && (|whole| > half ==> whole[..half] == left && whole[half..] == right)
  {
  }

  /** The children of node j of a level above the leaves are nodes 2j and 2j + 1 one level down. */
  lemma ChildrenSlots(height: nat, k: nat, j: nat)
    requires 0 < k <= height && j < Pow2(height - k)
    ensures Pow2(height) <= LevelStart(height, k) + j <= 2 * Pow2(height) - 2
    ensures 2 * (LevelStart(height, k) + j - Pow2(height)) == LevelStart(height, k - 1) + 2 * j
    ensures 2 * j + 1 < Pow2(height - (k - 1))
  {
    assert Pow2(height - k + 1) == 2 * Pow2(height - k);
    Pow2Monotone(height - k + 1, height);
  }

  /** Refinement: the bottom-up array holds exactly the top-down nodes, level after level. */
  lemma {:induction false} ArrayHoldsNodes<T>(join: (T, T) -> T, leaves: seq<T>, height: nat, k: nat, j: nat, i: nat)
    requires |leaves| <= Pow2(height) && k <= height && j < Pow2(height - k)
    requires i == LevelStart(height, k) + j
    ensures i <= 2 * Pow2(height) - 2
    ensures Slot(join, leaves, Pow2(height), i) == Node(join, leaves, k, j)
    decreases k
  {
    var width := Pow2(height);
    if k > 0 {
      ChildrenSlots(height, k, j);
      var child := 2 * (i - width);
      ArrayHoldsNodes(join, leaves, height, k - 1, 2 * j, child);
      ArrayHoldsNodes(join, leaves, height, k - 1, 2 * j + 1, child + 1);
    }
  }

  /** The topmost node is the root of the whole list. */
  lemma TopNode<T>(join: (T, T) -> T, leaves: seq<T>, height: nat)
    requires 0 < |leaves| <= Pow2(height)
    ensures Node(join, leaves, height, 0) == Some(SubRoot(join, leaves, height))
  {
    NodeIsSubRoot(join, leaves, height, 0);
    NextFirstLeaf(height, 0);
    assert Below(leaves, height, 0) == leaves;
  }

  /** The last slot of the array is the top-down root. */
  lemma LastSlotIsRoot<T>(join: (T, T) -> T, leaves: seq<T>, height: nat)
    requires 0 < |leaves| <= Pow2(height)
    ensures Slot(join, leaves, Pow2(height), 2 * Pow2(height) - 2) == Some(SubRoot(join, leaves, height))
  {
    ArrayHoldsNodes(join, leaves, height, height, 0, 2 * Pow2(height) - 2);
    TopNode(join, leaves, height);
  }
}
