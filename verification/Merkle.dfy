/** The Merkle commitment over block references
    (node/attestation/src/freshness.rs, `compute_merkle_root`). */
module Merkle {
  import opened Bytes

  datatype BlockInfo = BlockInfo(
    chainId: u64,
    chainName: string,
    blockNumber: u64,
    blockHash: Bytes,
    timestamp: u64,
    fetchedAt: u64)

  /** The hash function is a parameter: SHA-256 enters only through its digest size and
      through the absence of collisions among the strings a run really hashes. */
  type HashFn = Bytes -> Bytes

  ghost predicate Digests32(H: HashFn) {
    forall x :: |H(x)| == 32
  }

  // ---------- The reference definition: a tree addressed by (height, index) ----------

  function LeafInput(b: BlockInfo): Bytes {
    LeEncode(b.chainId, 8) + LeEncode(b.blockNumber, 8) + b.blockHash
  }

  function Leaves(H: HashFn, blocks: seq<BlockInfo>): (r: seq<Bytes>)
    ensures |r| == |blocks|
    ensures forall i :: 0 <= i < |blocks| ==> r[i] == H(LeafInput(blocks[i]))
  {
    if blocks == [] then [] else [H(LeafInput(blocks[0]))] + Leaves(H, blocks[1..])
  }

  /** Number of nodes at height `h` of a tree with `n` leaves. */
  function Width(n: nat, h: nat): (w: nat)
    ensures n > 0 ==> w > 0
  {
    if h == 0 then n else (Width(n, h - 1) + 1) / 2
  }

  /** Height of the root: the first height that holds one node. */
  function Height(n: nat): nat {
    if n <= 1 then 0 else 1 + Height((n + 1) / 2)
  }

  /** Index of a node's right child; an odd last node is its own sibling. */
  function Right(n: nat, h: nat, i: nat): (r: nat)
    requires i < Width(n, h + 1)
    ensures 2 * i < Width(n, h) && r < Width(n, h)
  {
    if 2 * i + 1 < Width(n, h) then 2 * i + 1 else 2 * i
  }

  function Node(H: HashFn, leaves: seq<Bytes>, h: nat, i: nat): Bytes
    requires i < Width(|leaves|, h)
    decreases h
  {
    if h == 0 then leaves[i] else H(NodeInput(H, leaves, h, i))
  }

  /** The string hashed to make node `i` at height `h`. */
  function NodeInput(H: HashFn, leaves: seq<Bytes>, h: nat, i: nat): Bytes
    requires h > 0 && i < Width(|leaves|, h)
    decreases h, 0
  {
    Node(H, leaves, h - 1, 2 * i) + Node(H, leaves, h - 1, Right(|leaves|, h - 1, i))
  }

  lemma {:induction false} WidthShift(n: nat, h: nat)
    ensures Width((n + 1) / 2, h) == Width(n, h + 1)
  {
    if h > 0 {
      WidthShift(n, h - 1);
    }
  }

  lemma {:induction false} RootWidth(n: nat)
    requires n > 0
    ensures Width(n, Height(n)) == 1
  {
    if n > 1 {
      RootWidth((n + 1) / 2);
      WidthShift(n, Height((n + 1) / 2));
    }
  }

  /** Every level below the root holds more than one node, so the loop stops at the root. */
  lemma {:induction false} OnlyRootIsAlone(n: nat, h: nat)
    requires n > 0 && h <= Height(n)
    ensures Width(n, h) == 1 <==> h == Height(n)
  {
    RootWidth(n);
    if n > 1 && h > 0 {
      WidthShift(n, h - 1);
      OnlyRootIsAlone((n + 1) / 2, h - 1);
    }
  }

  ghost function TreeRoot(H: HashFn, blocks: seq<BlockInfo>): Bytes {
    if blocks == [] then Zeros(32)
    else
      RootWidth(|blocks|);
      Node(H, Leaves(H, blocks), Height(|blocks|), 0)
  }

  ghost predicate IsLevel(H: HashFn, leaves: seq<Bytes>, h: nat, hashes: seq<Bytes>) {
    && |hashes| == Width(|leaves|, h)
    && forall i :: 0 <= i < |hashes| ==> hashes[i] == Node(H, leaves, h, i)
  }

  // ---------- The code: level by level ----------

  /** One pass of the `while` body: hash adjacent pairs, the odd last one with itself. */
  method NextLevel(H: HashFn, hashes: seq<Bytes>, ghost leaves: seq<Bytes>, ghost h: nat)
    returns (next: seq<Bytes>)
    requires hashes != [] && IsLevel(H, leaves, h, hashes)
    ensures IsLevel(H, leaves, h + 1, next)
  {
    next := [];
    var k := 0;
    while k < |hashes|
      invariant 0 <= k <= |hashes| + 1
      invariant k == 2 * |next| && (k == |hashes| + 1 ==> |hashes| % 2 == 1)
      invariant forall i :: 0 <= i < |next| ==>
        i < Width(|leaves|, h + 1) && next[i] == Node(H, leaves, h + 1, i)
    {
      var second := if k + 1 < |hashes| then hashes[k + 1] else hashes[k];
      ghost var i := |next|;
      assert NodeInput(H, leaves, h + 1, i) == hashes[k] + second;
      next := next + [H(hashes[k] + second)];
      k := k + 2;
    }
  }

  /** The loop computes the root of the tree, for every list of blocks. */
  method ComputeMerkleRoot(H: HashFn, blocks: seq<BlockInfo>) returns (root: Bytes)
    ensures root == TreeRoot(H, blocks)
  {
    if blocks == [] {
      return Zeros(32);
    }
    var hashes: seq<Bytes> := [];
    for k := 0 to |blocks|
      invariant |hashes| == k
      invariant forall i :: 0 <= i < k ==> hashes[i] == H(LeafInput(blocks[i]))
    {
      hashes := hashes + [H(LeafInput(blocks[k]))];
    }
    ghost var leaves := hashes;
    assert leaves == Leaves(H, blocks);
    ghost var h := 0;
    OnlyRootIsAlone(|leaves|, h);
    while |hashes| > 1
      invariant IsLevel(H, leaves, h, hashes) && hashes != []
      invariant h <= Height(|leaves|)
      invariant |hashes| == 1 <==> h == Height(|leaves|)
      decreases Height(|leaves|) - h
    {
      hashes := NextLevel(H, hashes, leaves, h);
      h := h + 1;
      OnlyRootIsAlone(|leaves|, h);
    }
    root := hashes[0];
  }

  /** The shape on three blocks: the left hash comes first, the odd last one is paired with itself. */
  lemma RootOfThree(H: HashFn, a: BlockInfo, b: BlockInfo, c: BlockInfo)
    ensures var leaf := (x: BlockInfo) => H(LeEncode(x.chainId, 8) + LeEncode(x.blockNumber, 8) + x.blockHash);
      TreeRoot(H, [a, b, c]) == H(H(leaf(a) + leaf(b)) + H(leaf(c) + leaf(c)))
  {
    var leaves := Leaves(H, [a, b, c]);
    assert Height(2) == 1 && Height(3) == 2;
    assert Width(3, 0) == 3 && Width(3, 1) == 2 && Width(3, 2) == 1;
    assert Right(3, 0, 0) == 1 && Right(3, 0, 1) == 2 && Right(3, 1, 0) == 1;
    assert Node(H, leaves, 1, 0) == H(leaves[0] + leaves[1]);
    assert Node(H, leaves, 1, 1) == H(leaves[2] + leaves[2]);
  }

  // ---------- Binding ----------

  /** `x` is one of the strings hashed while computing the root of `blocks`. */
  ghost predicate Hashed(H: HashFn, blocks: seq<BlockInfo>, x: Bytes) {
    || (exists i :: 0 <= i < |blocks| && x == LeafInput(blocks[i]))
    || (exists h: nat, i: nat ::
          0 < h <= Height(|blocks|) && i < Width(|blocks|, h) && x == NodeInput(H, Leaves(H, blocks), h, i))
  }

  /** No string hashed for `a` collides with a different string hashed for `b`. */
  ghost predicate NoCollision(H: HashFn, a: seq<BlockInfo>, b: seq<BlockInfo>) {
    forall x, y :: Hashed(H, a, x) && Hashed(H, b, y) && H(x) == H(y) ==> x == y
  }

  /** What the commitment covers of a block. */
  predicate SameBlock(a: BlockInfo, b: BlockInfo) {
    a.chainId == b.chainId && a.blockNumber == b.blockNumber && a.blockHash == b.blockHash
  }

  predicate SameBlocks(a: seq<BlockInfo>, b: seq<BlockInfo>) {
    |a| == |b| && forall i :: 0 <= i < |a| ==> SameBlock(a[i], b[i])
  }

  lemma LeafInputInjective(a: BlockInfo, b: BlockInfo)
    ensures LeafInput(a) == LeafInput(b) <==> SameBlock(a, b)
  {
    if LeafInput(a) == LeafInput(b) {
      var x, y := LeafInput(a), LeafInput(b);
      assert x[..8] == LeEncode(a.chainId, 8) && y[..8] == LeEncode(b.chainId, 8);
      assert x[8..16] == LeEncode(a.blockNumber, 8) && y[8..16] == LeEncode(b.blockNumber, 8);
      assert x[16..] == a.blockHash && y[16..] == b.blockHash;
      LeEncodeU64Injective(a.chainId, b.chainId);
      LeEncodeU64Injective(a.blockNumber, b.blockNumber);
    }
  }

  lemma {:induction false} NodeLength(H: HashFn, leaves: seq<Bytes>, h: nat, i: nat)
    requires Digests32(H) && i < Width(|leaves|, h)
    requires forall k :: 0 <= k < |leaves| ==> |leaves[k]| == 32
    ensures |Node(H, leaves, h, i)| == 32
  {
  }

  ghost predicate SameNode(H: HashFn, a: seq<BlockInfo>, b: seq<BlockInfo>, h: nat, i: nat) {
    && i < Width(|a|, h) && i < Width(|b|, h)
    && Node(H, Leaves(H, a), h, i) == Node(H, Leaves(H, b), h, i)
  }

  lemma NodeInputHashed(H: HashFn, blocks: seq<BlockInfo>, h: nat, i: nat)
    requires 0 < h <= Height(|blocks|) && i < Width(|blocks|, h)
    ensures Hashed(H, blocks, NodeInput(H, Leaves(H, blocks), h, i))
  {
  }

  lemma SameNodeSameInput(H: HashFn, a: seq<BlockInfo>, b: seq<BlockInfo>, h: nat, i: nat)
    requires NoCollision(H, a, b) && |a| == |b| && 0 < h <= Height(|a|) && SameNode(H, a, b, h, i)
    ensures NodeInput(H, Leaves(H, a), h, i) == NodeInput(H, Leaves(H, b), h, i)
  {
    NodeInputHashed(H, a, h, i);
    NodeInputHashed(H, b, h, i);
  }

  lemma EqualPairs(l: Bytes, r: Bytes, l': Bytes, r': Bytes)
    requires |l| == |l'| && l + r == l' + r'
    ensures l == l' && r == r'
  {
    assert (l + r)[..|l|] == l && (l' + r')[..|l|] == l';
    assert (l + r)[|l|..] == r && (l' + r')[|l|..] == r';
  }

  lemma SameInputSameChildren(H: HashFn, a: seq<Bytes>, b: seq<Bytes>, h: nat, i: nat)
    requires Digests32(H) && |a| == |b| && h > 0 && i < Width(|a|, h)
    requires forall k :: 0 <= k < |a| ==> |a[k]| == |b[k]| == 32
    requires NodeInput(H, a, h, i) == NodeInput(H, b, h, i)
    ensures var g, r := h - 1, Right(|a|, h - 1, i);
      Node(H, a, g, 2 * i) == Node(H, b, g, 2 * i) && Node(H, a, g, r) == Node(H, b, g, r)
  {
    var g, r := h - 1, Right(|a|, h - 1, i);
    NodeLength(H, a, g, 2 * i);
    NodeLength(H, b, g, 2 * i);
    EqualPairs(Node(H, a, g, 2 * i), Node(H, a, g, r), Node(H, b, g, 2 * i), Node(H, b, g, r));
  }

  /** Equal nodes have equal children ... */
  lemma SameNodeSameChildren(H: HashFn, a: seq<BlockInfo>, b: seq<BlockInfo>, h: nat, i: nat)
    requires Digests32(H) && NoCollision(H, a, b) && |a| == |b|
    requires 0 < h <= Height(|a|) && SameNode(H, a, b, h, i)
    ensures SameNode(H, a, b, h - 1, 2 * i) && SameNode(H, a, b, h - 1, Right(|a|, h - 1, i))
  {
    SameNodeSameInput(H, a, b, h, i);
    SameInputSameChildren(H, Leaves(H, a), Leaves(H, b), h, i);
  }

  /** Every node is the left or the right child of its parent. */
  lemma ParentOf(n: nat, h: nat, j: nat)
    requires h > 0 && j < Width(n, h - 1)
    ensures j / 2 < Width(n, h) && (j == 2 * (j / 2) || j == Right(n, h - 1, j / 2))
  {
  }

  lemma SameNodeSameChild(H: HashFn, a: seq<BlockInfo>, b: seq<BlockInfo>, h: nat, j: nat)
    requires Digests32(H) && NoCollision(H, a, b) && |a| == |b|
    requires 0 < h <= Height(|a|) && j < Width(|a|, h - 1) && SameNode(H, a, b, h, j / 2)
    ensures SameNode(H, a, b, h - 1, j)
  {
    ParentOf(|a|, h, j);
    SameNodeSameChildren(H, a, b, h, j / 2);
  }

  lemma SameLeafSameBlock(H: HashFn, a: seq<BlockInfo>, b: seq<BlockInfo>, i: nat)
    requires NoCollision(H, a, b) && i < |a| && i < |b| && SameNode(H, a, b, 0, i)
    ensures SameBlock(a[i], b[i])
  {
    assert Hashed(H, a, LeafInput(a[i])) && Hashed(H, b, LeafInput(b[i]));
    LeafInputInjective(a[i], b[i]);
  }

  /** ... so equality flows down the tree to every leaf. */
  lemma {:induction false} EqualLevelsBelow(H: HashFn, a: seq<BlockInfo>, b: seq<BlockInfo>, h: nat)
    requires Digests32(H) && NoCollision(H, a, b) && |a| == |b| && h <= Height(|a|)
    requires forall i: nat :: i < Width(|a|, h) ==> SameNode(H, a, b, h, i)
    ensures SameBlocks(a, b)
    decreases h
  {
    if h == 0 {
      forall i | 0 <= i < |a| ensures SameBlock(a[i], b[i]) {
        assert SameNode(H, a, b, 0, i);
        SameLeafSameBlock(H, a, b, i);
      }
    } else {
      var g := h - 1;
      forall j: nat | j < Width(|a|, g) ensures SameNode(H, a, b, g, j) {
        SameNodeSameChild(H, a, b, h, j);
      }
      EqualLevelsBelow(H, a, b, g);
    }
  }

  lemma SameBlocksSameRoot(H: HashFn, a: seq<BlockInfo>, b: seq<BlockInfo>)
    requires SameBlocks(a, b)
    ensures TreeRoot(H, a) == TreeRoot(H, b)
  {
    forall i | 0 <= i < |a| ensures Leaves(H, a)[i] == Leaves(H, b)[i] {
      LeafInputInjective(a[i], b[i]);
    }
    assert Leaves(H, a) == Leaves(H, b);
  }

  lemma RootIsTopNode(H: HashFn, blocks: seq<BlockInfo>)
    requires blocks != []
    ensures Width(|blocks|, Height(|blocks|)) == 1
    ensures TreeRoot(H, blocks) == Node(H, Leaves(H, blocks), Height(|blocks|), 0)
  {
    RootWidth(|blocks|);
  }

  /** A level of one node is equal throughout if that node is. */
  lemma LoneNode(H: HashFn, a: seq<BlockInfo>, b: seq<BlockInfo>, h: nat)
    requires |a| == |b| && Width(|a|, h) == 1
    requires Node(H, Leaves(H, a), h, 0) == Node(H, Leaves(H, b), h, 0)
    ensures forall i: nat :: i < Width(|a|, h) ==> SameNode(H, a, b, h, i)
  {
    forall i: nat | i < Width(|a|, h) ensures SameNode(H, a, b, h, i) {
      assert i == 0;
    }
  }

  /** Binding: for lists of one length, equal roots mean the same chain, number and hash at
      every position, and conversely. */
  lemma MerkleBinding(H: HashFn, a: seq<BlockInfo>, b: seq<BlockInfo>)
    requires Digests32(H) && NoCollision(H, a, b) && |a| == |b|
    ensures TreeRoot(H, a) == TreeRoot(H, b) <==> SameBlocks(a, b)
  {
    if SameBlocks(a, b) {
      SameBlocksSameRoot(H, a, b);
    }
    if a != [] && TreeRoot(H, a) == TreeRoot(H, b) {
      RootIsTopNode(H, a);
      RootIsTopNode(H, b);
      LoneNode(H, a, b, Height(|a|));
      EqualLevelsBelow(H, a, b, Height(|a|));
    }
  }

  lemma {:induction false} RootLength(H: HashFn, blocks: seq<BlockInfo>)
    requires Digests32(H)
    ensures |TreeRoot(H, blocks)| == 32
  {
    if blocks != [] {
      RootWidth(|blocks|);
      NodeLength(H, Leaves(H, blocks), Height(|blocks|), 0);
    }
  }

  // ---------- Why binding needs one length ----------

  lemma {:induction false} DuplicateLastSharesUpperLevels(H: HashFn, leaves: seq<Bytes>, h: nat, i: nat)
    requires |leaves| % 2 == 1 && h > 0 && i < Width(|leaves|, h)
    ensures Width(|leaves| + 1, h) == Width(|leaves|, h)
    ensures Node(H, leaves + [leaves[|leaves| - 1]], h, i) == Node(H, leaves, h, i)
    decreases h
  {
    var n := |leaves|;
    assert Right(n, h - 1, i) < Width(n, h - 1);
    if h > 1 {
      DuplicateLastSharesUpperLevels(H, leaves, h - 1, 2 * i);
      DuplicateLastSharesUpperLevels(H, leaves, h - 1, Right(n, h - 1, i));
    }
  }

  lemma LeavesSnoc(H: HashFn, blocks: seq<BlockInfo>, b: BlockInfo)
    ensures Leaves(H, blocks + [b]) == Leaves(H, blocks) + [H(LeafInput(b))]
  {
  }

  lemma HeightOfDuplicate(n: nat)
    requires n > 1 && n % 2 == 1
    ensures Height(n + 1) == Height(n) > 0
  {
    assert (n + 1 + 1) / 2 == (n + 1) / 2;
  }

  /** The root alone does not fix the number of blocks: repeating the last block of an odd list
      of three or more keeps the root, for every hash function. */
  lemma OddListSharesRootWithItsDuplicate(H: HashFn, blocks: seq<BlockInfo>)
    requires |blocks| > 1 && |blocks| % 2 == 1
    ensures TreeRoot(H, blocks + [blocks[|blocks| - 1]]) == TreeRoot(H, blocks)
  {
    var n, leaves := |blocks|, Leaves(H, blocks);
    LeavesSnoc(H, blocks, blocks[n - 1]);
    HeightOfDuplicate(n);
    RootWidth(n);
    DuplicateLastSharesUpperLevels(H, leaves, Height(n), 0);
  }

  // ---------- Binding for any two lengths ----------

  function Pow2(h: nat): (p: nat)
    ensures p > 0
  {
    if h == 0 then 1 else 2 * Pow2(h - 1)
  }

  /** The `2^h` blocks below node `i` at height `h` of the tree filled up by duplication. */
  function Filled(blocks: seq<BlockInfo>, h: nat, i: nat): (r: seq<BlockInfo>)
    requires i < Width(|blocks|, h)
    ensures |r| == Pow2(h)
  {
    if h == 0 then [blocks[i]]
    else Filled(blocks, h - 1, 2 * i) + Filled(blocks, h - 1, Right(|blocks|, h - 1, i))
  }

  /** Blocks with 32-byte hashes, as chains have. */
  predicate Hashes32(blocks: seq<BlockInfo>) {
    forall i :: 0 <= i < |blocks| ==> |blocks[i].blockHash| == 32
  }

  ghost function NodeOf(H: HashFn, blocks: seq<BlockInfo>, h: nat, i: nat): Bytes
    requires i < Width(|blocks|, h)
  {
    Node(H, Leaves(H, blocks), h, i)
  }

  ghost function InputOf(H: HashFn, blocks: seq<BlockInfo>, h: nat, i: nat): Bytes
    requires h > 0 && i < Width(|blocks|, h)
  {
    NodeInput(H, Leaves(H, blocks), h, i)
  }

  lemma EqualNodesEqualInputs(H: HashFn, a: seq<BlockInfo>, b: seq<BlockInfo>, g: nat, i: nat, h: nat, j: nat)
    requires NoCollision(H, a, b) && 0 < g <= Height(|a|) && 0 < h <= Height(|b|)
    requires i < Width(|a|, g) && j < Width(|b|, h)
    ensures NodeOf(H, a, g, i) == NodeOf(H, b, h, j) <==> InputOf(H, a, g, i) == InputOf(H, b, h, j)
  {
    NodeInputHashed(H, a, g, i);
    NodeInputHashed(H, b, h, j);
  }

  /** Equal inputs are equal children, left and right. */
  lemma EqualInputsEqualChildren(H: HashFn, a: seq<Bytes>, b: seq<Bytes>, g: nat, i: nat, h: nat, j: nat)
    requires Digests32(H) && g > 0 && h > 0 && i < Width(|a|, g) && j < Width(|b|, h)
    requires (forall k :: 0 <= k < |a| ==> |a[k]| == 32) && (forall k :: 0 <= k < |b| ==> |b[k]| == 32)
    ensures NodeInput(H, a, g, i) == NodeInput(H, b, h, j) <==>
            && Node(H, a, g - 1, 2 * i) == Node(H, b, h - 1, 2 * j)
            && Node(H, a, g - 1, Right(|a|, g - 1, i)) == Node(H, b, h - 1, Right(|b|, h - 1, j))
  {
    NodeLength(H, a, g - 1, 2 * i);
    NodeLength(H, b, h - 1, 2 * j);
    PairsEqualExactly(Node(H, a, g - 1, 2 * i), Node(H, a, g - 1, Right(|a|, g - 1, i)),
                      Node(H, b, h - 1, 2 * j), Node(H, b, h - 1, Right(|b|, h - 1, j)));
  }

  lemma InputIsLong(H: HashFn, leaves: seq<Bytes>, h: nat, i: nat)
    requires Digests32(H) && h > 0 && i < Width(|leaves|, h)
    requires forall k :: 0 <= k < |leaves| ==> |leaves[k]| == 32
    ensures |NodeInput(H, leaves, h, i)| == 64
  {
    NodeLength(H, leaves, h - 1, 2 * i);
    NodeLength(H, leaves, h - 1, Right(|leaves|, h - 1, i));
  }

  lemma PairsEqualExactly(l: Bytes, r: Bytes, m: Bytes, s: Bytes)
    requires |l| == |m|
    ensures l + r == m + s <==> l == m && r == s
  {
    if l + r == m + s {
      EqualPairs(l, r, m, s);
    }
  }

  /** A leaf hashes 48 bytes, a node above the leaves 64. */
  lemma LeafIsNoNode(H: HashFn, a: seq<BlockInfo>, b: seq<BlockInfo>, i: nat, h: nat, j: nat)
    requires Digests32(H) && NoCollision(H, a, b) && i < |a| && |a[i].blockHash| == 32
    requires 0 < h <= Height(|b|) && j < Width(|b|, h)
    ensures NodeOf(H, a, 0, i) != NodeOf(H, b, h, j)
  {
    NodeInputHashed(H, b, h, j);
    InputIsLong(H, Leaves(H, b), h, j);
    assert |LeafInput(a[i])| == 48;
    assert Hashed(H, a, LeafInput(a[i]));
  }

  lemma DifferentLeftChildren(H: HashFn, a: seq<BlockInfo>, b: seq<BlockInfo>, g: nat, i: nat, h: nat, j: nat)
    requires Digests32(H) && NoCollision(H, a, b) && 0 < g <= Height(|a|) && 0 < h <= Height(|b|)
    requires i < Width(|a|, g) && j < Width(|b|, h) && 2 * i < Width(|a|, g - 1) && 2 * j < Width(|b|, h - 1)
    requires NodeOf(H, a, g - 1, 2 * i) != NodeOf(H, b, h - 1, 2 * j)
    ensures NodeOf(H, a, g, i) != NodeOf(H, b, h, j)
  {
    EqualNodesEqualInputs(H, a, b, g, i, h, j);
    EqualInputsEqualChildren(H, Leaves(H, a), Leaves(H, b), g, i, h, j);
  }

  lemma {:induction false} DifferentHeights(H: HashFn, a: seq<BlockInfo>, b: seq<BlockInfo>,
                                            g: nat, i: nat, h: nat, j: nat)
    requires Digests32(H) && NoCollision(H, a, b) && Hashes32(a)
    requires g <= Height(|a|) && h <= Height(|b|) && g < h && i < Width(|a|, g) && j < Width(|b|, h)
    ensures NodeOf(H, a, g, i) != NodeOf(H, b, h, j)
    decreases g
  {
    if g == 0 {
      LeafIsNoNode(H, a, b, i, h, j);
    } else {
      DifferentHeights(H, a, b, g - 1, 2 * i, h - 1, 2 * j);
      DifferentLeftChildren(H, a, b, g, i, h, j);
    }
  }

  lemma SameHalves(x: seq<BlockInfo>, y: seq<BlockInfo>, x': seq<BlockInfo>, y': seq<BlockInfo>)
    requires |x| == |x'|
    ensures SameBlocks(x + y, x' + y') <==> SameBlocks(x, x') && SameBlocks(y, y')
  {
    var n, all, all' := |x|, x + y, x' + y';
    if SameBlocks(all, all') {
      forall i | 0 <= i < n ensures SameBlock(x[i], x'[i]) {
        assert SameBlock(all[i], all'[i]);
      }
      forall i | 0 <= i < |y| ensures SameBlock(y[i], y'[i]) {
        assert SameBlock(all[n + i], all'[n + i]);
      }
    }
    if SameBlocks(x, x') && SameBlocks(y, y') {
      forall i | 0 <= i < |all| ensures SameBlock(all[i], all'[i]) {
        if i >= n {
          assert all[i] == y[i - n] && all'[i] == y'[i - n];
        }
      }
    }
  }

  lemma SameOne(x: BlockInfo, y: BlockInfo)
    ensures SameBlocks([x], [y]) <==> SameBlock(x, y)
  {
    assert [x][0] == x && [y][0] == y;
  }

  lemma LeavesEqualExactly(H: HashFn, a: seq<BlockInfo>, b: seq<BlockInfo>, i: nat, j: nat)
    requires NoCollision(H, a, b) && i < |a| && j < |b|
    ensures NodeOf(H, a, 0, i) == NodeOf(H, b, 0, j) <==> SameBlock(a[i], b[j])
  {
    assert Hashed(H, a, LeafInput(a[i])) && Hashed(H, b, LeafInput(b[j]));
    LeafInputInjective(a[i], b[j]);
  }

  lemma {:induction false} NodesEqualExactly(H: HashFn, a: seq<BlockInfo>, b: seq<BlockInfo>, h: nat, i: nat, j: nat)
    requires Digests32(H) && NoCollision(H, a, b) && h <= Height(|a|) && h <= Height(|b|)
    requires i < Width(|a|, h) && j < Width(|b|, h)
    ensures NodeOf(H, a, h, i) == NodeOf(H, b, h, j) <==> SameBlocks(Filled(a, h, i), Filled(b, h, j))
    decreases h
  {
    if h == 0 {
      LeavesEqualExactly(H, a, b, i, j);
      SameOne(a[i], b[j]);
    } else {
      var r, s := Right(|a|, h - 1, i), Right(|b|, h - 1, j);
      EqualNodesEqualInputs(H, a, b, h, i, h, j);
      EqualInputsEqualChildren(H, Leaves(H, a), Leaves(H, b), h, i, h, j);
      NodesEqualExactly(H, a, b, h - 1, 2 * i, 2 * j);
      NodesEqualExactly(H, a, b, h - 1, r, s);
      SameHalves(Filled(a, h - 1, 2 * i), Filled(a, h - 1, r), Filled(b, h - 1, 2 * j), Filled(b, h - 1, s));
    }
  }

  /** The whole tree's leaves, with the duplicates. */
  function FilledUp(blocks: seq<BlockInfo>): seq<BlockInfo>
    requires blocks != []
  {
    RootWidth(|blocks|);
    Filled(blocks, Height(|blocks|), 0)
  }

  /** Binding for lists of any two lengths: roots are equal if and only if the trees have one height and,
      filled up by duplication, the same blocks. */
  lemma BindingOfAnyLengths(H: HashFn, a: seq<BlockInfo>, b: seq<BlockInfo>)
    requires Digests32(H) && NoCollision(H, a, b) && Hashes32(a) && Hashes32(b) && a != [] && b != []
    ensures TreeRoot(H, a) == TreeRoot(H, b) <==>
            Height(|a|) == Height(|b|) && SameBlocks(FilledUp(a), FilledUp(b))
  {
    var g, h := Height(|a|), Height(|b|);
    RootIsTopNode(H, a);
    RootIsTopNode(H, b);
    if g < h {
      DifferentHeights(H, a, b, g, 0, h, 0);
    } else if h < g {
      DifferentHeights(H, b, a, h, 0, g, 0);
    } else {
      NodesEqualExactly(H, a, b, g, 0, 0);
    }
  }

  lemma Halving(i: nat, h: nat)
    requires h > 0
    ensures i * Pow2(h) == (2 * i) * Pow2(h - 1) && (2 * i + 1) * Pow2(h - 1) == i * Pow2(h) + Pow2(h - 1)
  {
  }

  /** Node `i` at height `h` exists if and only if its first leaf does. */
  lemma {:induction false} FirstLeaf(n: nat, h: nat, i: nat)
    ensures i < Width(n, h) <==> i * Pow2(h) < n
    decreases h
  {
    if h > 0 {
      FirstLeaf(n, h - 1, 2 * i);
      Halving(i, h);
    }
  }

  /** Filling up keeps the blocks that are there, in place. */
  lemma {:induction false} FilledKeeps(blocks: seq<BlockInfo>, h: nat, i: nat, first: nat, j: nat)
    requires i < Width(|blocks|, h) && j < Pow2(h) && first == i * Pow2(h) && first + j < |blocks|
    ensures Filled(blocks, h, i)[j] == blocks[first + j]
    decreases h
  {
    if h > 0 {
      var half := Pow2(h - 1);
      Halving(i, h);
      if j < half {
        FilledKeeps(blocks, h - 1, 2 * i, first, j);
      } else {
        FirstLeaf(|blocks|, h - 1, 2 * i + 1);
        FilledKeeps(blocks, h - 1, 2 * i + 1, first + half, j - half);
      }
    }
  }

  lemma {:induction false} HeightCovers(n: nat)
    ensures n <= Pow2(Height(n))
  {
    if n > 1 {
      HeightCovers((n + 1) / 2);
    }
  }

  /** So the filled-up list begins with the list itself. */
  lemma FilledUpBegins(blocks: seq<BlockInfo>)
    requires blocks != []
    ensures blocks <= FilledUp(blocks)
  {
    RootWidth(|blocks|);
    HeightCovers(|blocks|);
    forall j | 0 <= j < |blocks| ensures FilledUp(blocks)[j] == blocks[j] {
      FilledKeeps(blocks, Height(|blocks|), 0, 0, j);
    }
  }
}
