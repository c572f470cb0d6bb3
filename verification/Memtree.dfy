/** The flat Merkle tree: building it level by level in one array, extracting a proof from it, and verifying
    proofs. Positions count nodes of 32 bytes; every byte offset of the program is a multiple of that. */
module Memtree {
  import opened Base

  const NODE_SIZE := 32

  type Node = n: seq<byte> | |n| == NODE_SIZE witness Zeros(NODE_SIZE)

  /** SHA-256, of which only the width of the result is known. */
  type Digest = seq<byte> -> Node

  /** Clears the top two bits of the last byte. */
  function Masked(n: Node): Node {
    n[..31] + [n[31] % 64]
  }

  /** The 64 bytes hashed for a pair of nodes. */
  function Both(left: Node, right: Node): (data: seq<byte>)
    ensures |data| == 64
  {
    var bytes: seq<byte> := left;
    bytes + right
  }

  function Hash(sha: Digest, data: seq<byte>): Node {
    Masked(sha(data))
  }

  /** The node is the digest of the 64 bytes of the two nodes, left then right, with the top two bits cleared. */
  predicate IsHash(sha: Digest, node: Node, left: Node, right: Node) {
    var bytes: seq<byte> := left;
    node[..31] == sha(bytes + right)[..31] && node[31] == sha(bytes + right)[31] % 64
  }

  lemma HashIs(sha: Digest, left: Node, right: Node)
    ensures IsHash(sha, Hash(sha, Both(left, right)), left, right)
    ensures forall node :: IsHash(sha, node, left, right) ==> node == Hash(sha, Both(left, right))
  {
    forall node | IsHash(sha, node, left, right)
      ensures node == Hash(sha, Both(left, right))
    {
      assert node == node[..31] + [node[31]];
    }
  }

  // ---- the sizes of the levels

  function Half(n: nat): nat { (n + 1) / 2 }

  function LevelSizes(n: nat): (s: seq<nat>)
    ensures n > 0 ==> |s| > 0 && s[0] == n && s[|s| - 1] == 1
  {
    if n == 0 then [] else if n == 1 then [1] else [n] + LevelSizes(Half(n))
  }

  /** The number of nodes of a tree with n leaves. */
  function TotalNodes(n: nat): (t: nat)
    ensures t >= n
  {
    if n <= 1 then n else n + TotalNodes(Half(n))
  }

  lemma {:induction false} TotalIncreases(m: nat, n: nat)
    requires m < n
    ensures TotalNodes(m) < TotalNodes(n)
    decreases n
  {
    if n > 1 && m > 1 && Half(m) < Half(n) {
      TotalIncreases(Half(m), Half(n));
    }
  }

  predicate PowerOfTwo(n: nat) {
    n == 1 || (n > 0 && n % 2 == 0 && PowerOfTwo(n / 2))
  }

  /** A tree has at least 2n - 1 nodes, and exactly as many when n is a power of two. */
  lemma {:induction false} TotalAtLeast(n: nat)
    requires n > 0
    ensures TotalNodes(n) >= 2 * n - 1
    ensures TotalNodes(n) == 2 * n - 1 <==> PowerOfTwo(n)
  {
    if n <= 1 {
    } else {
      TotalAtLeast(Half(n));
    }
  }

  /** The size check of MemtreeProof, on the number of nodes it is given. */
  predicate SizeAccepted(totalNodes: nat) {
    TotalNodes((totalNodes + 1) / 2) == totalNodes
  }

  /** The check accepts the tree of n leaves exactly when it has at most 2n nodes, and then finds n. */
  lemma SizeAcceptedIff(n: nat)
    requires n > 0
    ensures SizeAccepted(TotalNodes(n)) <==> TotalNodes(n) <= 2 * n
    ensures TotalNodes(n) <= 2 * n ==> (TotalNodes(n) + 1) / 2 == n
  {
    hide TotalNodes;
    TotalAtLeast(n);
    var m := (TotalNodes(n) + 1) / 2;
    if m > n {
      TotalIncreases(n, m);
    }
  }

  /** Five leaves make eleven nodes, which the check takes for a tree of six: a tree that can be built but
      not proved from. */
  lemma FiveLeavesRejected()
    ensures TotalNodes(5) == 11 && !SizeAccepted(11)
  {
  }

  // ---- the tree

  /** The level above `level`. The last node of an odd level is paired with the slot after it, which holds
      the first node of the level above, written before it is read. */
  function NextLevel(sha: Digest, level: seq<Node>): (next: seq<Node>)
    requires |level| > 1
    ensures |next| == Half(|level|)
  {
    var first := Hash(sha, Both(level[0], level[1]));
    seq(Half(|level|), i requires 0 <= i < Half(|level|) =>
      Hash(sha, Both(level[2 * i], if 2 * i + 1 < |level| then level[2 * i + 1] else first)))
  }

  /** All levels, one after another. */
  function Flat(sha: Digest, level: seq<Node>): (t: seq<Node>)
    ensures |t| == TotalNodes(|level|)
    decreases |level|
  {
    if |level| <= 1 then level else level + Flat(sha, NextLevel(sha, level))
  }

  function Sibling(i: nat): nat { if i % 2 == 0 then i + 1 else i - 1 }

  /** Where a node of the next level comes from. */
  lemma NextAt(sha: Digest, level: seq<Node>, i: nat)
    requires |level| > 1 && i < Half(|level|)
    ensures 2 * i < |level|
    ensures var next := NextLevel(sha, level);
            next[i] == Hash(sha, Both(level[2 * i], if 2 * i + 1 < |level| then level[2 * i + 1] else next[0]))
  {
  }

  /** The slot at the end of a level of the flat tree is the first node of the next level. */
  lemma FlatAt(sha: Digest, level: seq<Node>, i: nat)
    requires |level| > 1 && i <= |level|
    ensures |level| < |Flat(sha, level)|
    ensures Flat(sha, level)[i] == if i < |level| then level[i] else NextLevel(sha, level)[0]
  {
  }

  /** In the flat tree the sibling of every node, also the one past the end of an odd level, is where the next
      level takes it from. */
  lemma ParentOf(sha: Digest, level: seq<Node>, i: nat)
    requires |level| > 1 && i < |level|
    ensures Sibling(i) < |Flat(sha, level)| && i / 2 < |NextLevel(sha, level)|
    ensures NextLevel(sha, level)[i / 2] == Hash(sha, Pair(level[i], Flat(sha, level)[Sibling(i)], i))
  {
    hide Flat, NextLevel, Hash, Both;
    NextAt(sha, level, i / 2);
    FlatAt(sha, level, Sibling(i));
  }

  lemma FlatStartsWith(sha: Digest, level: seq<Node>)
    ensures level <= Flat(sha, level)
  {
  }

  /** Where the left one of the two nodes below the node at a position of the flat tree of n leaves is; the right one
      is next to it. */
  function ChildOf(n: nat, pos: nat): (child: nat)
    requires n > 1 && n <= pos < TotalNodes(n)
    ensures child + 1 <= pos
    decreases n
  {
    if pos < n + (n + 1) / 2 then 2 * (pos - n) else n + ChildOf((n + 1) / 2, pos - n)
  }

  /** Every node above the leaves is the digest, with the top two bits cleared, of the two nodes below it. */
  lemma {:induction false} NodesAreHashes(sha: Digest, leaves: seq<Node>, pos: nat)
    requires |leaves| > 1 && |leaves| <= pos < |Flat(sha, leaves)|
    ensures var t := Flat(sha, leaves); var child := ChildOf(|leaves|, pos);
            IsHash(sha, t[pos], t[child], t[child + 1]) && t[pos][31] < 64
    decreases |leaves|
  {
    hide NextLevel, Hash, Both, IsHash, Flat, TotalNodes;
    var n, next := |leaves|, NextLevel(sha, leaves);
    FlatUnfold(sha, leaves);
    TotalUnfold(n);
    if pos < n + Half(n) {
      FirstLevelHash(sha, leaves, pos - n);
    } else {
      NodesAreHashes(sha, next, pos - n);
    }
  }

  lemma TotalUnfold(n: nat)
    requires n > 1
    ensures TotalNodes(n) == n + TotalNodes(Half(n))
    ensures Half(n) == 1 ==> TotalNodes(Half(n)) == 1
  {
  }

  lemma FlatUnfold(sha: Digest, level: seq<Node>)
    requires |level| > 1
    ensures Flat(sha, level) == level + Flat(sha, NextLevel(sha, level))
  {
    hide NextLevel;
  }

  lemma FirstLevelHash(sha: Digest, level: seq<Node>, i: nat)
    requires |level| > 1 && i < Half(|level|)
    ensures |level| + i < |Flat(sha, level)| && 2 * i + 1 <= |level|
    ensures var t := Flat(sha, level);
            IsHash(sha, t[|level| + i], t[2 * i], t[2 * i + 1]) && t[|level| + i][31] < 64
  {
    hide NextLevel, Hash, Both, IsHash, Flat;
    var t, next := Flat(sha, level), NextLevel(sha, level);
    FlatUnfold(sha, level);
    NextAt(sha, level, i);
    FlatAt(sha, level, 2 * i);
    FlatAt(sha, level, 2 * i + 1);
    FlatStartsWith(sha, next);
    assert t[|level| + i] == Flat(sha, next)[i] == next[i];
    HashIs(sha, t[2 * i], t[2 * i + 1]);
    MaskedSmall(sha, t[|level| + i], t[2 * i], t[2 * i + 1]);
  }

  /** The leaves' tree: above the first n nodes, every node is the hash of those below it. */
  ghost predicate HashedAbove(sha: Digest, t: seq<Node>, n: nat) {
    n > 1 ==> |t| == TotalNodes(n) && forall pos :: n <= pos < |t| ==>
      IsHash(sha, t[pos], t[ChildOf(n, pos)], t[ChildOf(n, pos) + 1]) && t[pos][31] < 64
  }

  lemma FlatIsHashed(sha: Digest, leaves: seq<Node>)
    requires leaves != []
    ensures |leaves| <= |Flat(sha, leaves)| && Flat(sha, leaves)[..|leaves|] == leaves
    ensures HashedAbove(sha, Flat(sha, leaves), |leaves|)
  {
    hide Flat, IsHash, TotalNodes, ChildOf;
    FlatStartsWith(sha, leaves);
    if |leaves| > 1 {
      forall pos | |leaves| <= pos < |Flat(sha, leaves)|
        ensures var t := Flat(sha, leaves); var child := ChildOf(|leaves|, pos);
                IsHash(sha, t[pos], t[child], t[child + 1]) && t[pos][31] < 64
      {
        NodesAreHashes(sha, leaves, pos);
      }
    }
  }

  lemma MaskedSmall(sha: Digest, node: Node, left: Node, right: Node)
    requires IsHash(sha, node, left, right)
    ensures node[31] < 64
  {
  }

  // ---- proofs

  datatype Proof = Proof(leaf: Node, path: seq<Node>, root: Node)

  /** The siblings on the way up from node i of the level of n nodes that starts at `start`. */
  function Path(memtree: seq<Node>, n: nat, start: nat, i: nat): (path: seq<Node>)
    requires n > 0 && i < n && start + TotalNodes(n) == |memtree|
    ensures |path| == |LevelSizes(n)| - 1
    decreases n
  {
    if n == 1 then [] else
      [memtree[start + Sibling(i)]] + Path(memtree, Half(n), start + n, i / 2)
  }

  function ProofFor(memtree: seq<Node>, leafIndex: int): Outcome<Proof>
    requires |memtree| > 0
  {
    if !SizeAccepted(|memtree|) then Err(MemtreeSize)
    else
      var nLeaves := (|memtree| + 1) / 2;
      if !(0 <= leafIndex < nLeaves) then Err(LeafIndex)
      else Ok(Proof(memtree[leafIndex], Path(memtree, nLeaves, 0, leafIndex), memtree[|memtree| - 1]))
  }

  /** Go's division truncates toward zero. */
  function Parent(index: int): int { if index >= 0 then index / 2 else -((-index) / 2) }

  function Pair(current: Node, sibling: Node, index: int): (data: seq<byte>)
    ensures |data| == 64
  {
    if index % 2 == 0 then Both(current, sibling) else Both(sibling, current)
  }

  /** The root recomputed from a node and the siblings above it. */
  function Climb(sha: Digest, current: Node, path: seq<Node>, index: int): Node
    decreases |path|
  {
    if path == [] then current else Climb(sha, Hash(sha, Pair(current, path[0], index)), path[1..], Parent(index))
  }

  predicate Accepts(sha: Digest, proof: Proof, leafIndex: int) {
    Climb(sha, proof.leaf, proof.path, leafIndex) == proof.root
  }

  lemma ClimbUnfold(sha: Digest, memtree: seq<Node>, level: seq<Node>, start: nat, i: nat)
    requires |level| > 1 && i < |level| && start + TotalNodes(|level|) == |memtree|
    requires start + Sibling(i) < |memtree|
    ensures Climb(sha, level[i], Path(memtree, |level|, start, i), i)
         == Climb(sha, Hash(sha, Pair(level[i], memtree[start + Sibling(i)], i)),
                  Path(memtree, Half(|level|), start + |level|, i / 2), i / 2)
  {
    hide Hash, Pair, LevelSizes, Sibling;
    var path := Path(memtree, |level|, start, i);
    assert path[1..] == Path(memtree, Half(|level|), start + |level|, i / 2);
  }

  lemma NextInFlat(sha: Digest, memtree: seq<Node>, level: seq<Node>, start: nat)
    requires |level| > 1 && start <= |memtree| && memtree[start..] == Flat(sha, level)
    ensures start + |level| <= |memtree| && memtree[start + |level|..] == Flat(sha, NextLevel(sha, level))
  {
    hide NextLevel;
    assert memtree[start + |level|..] == memtree[start..][|level|..];
  }

  lemma OneLevel(sha: Digest, memtree: seq<Node>, level: seq<Node>, start: nat)
    requires |level| == 1 && start <= |memtree| && memtree[start..] == Flat(sha, level)
    ensures start + 1 == |memtree| && Climb(sha, level[0], Path(memtree, 1, start, 0), 0) == level[0]
    ensures memtree[|memtree| - 1] == level[0]
  {
    hide NextLevel, Hash;
    assert memtree[start..][0] == memtree[start];
  }

  /** Climbing from any node of the built tree along its path ends at the last node. */
  lemma {:induction false} ClimbsToRoot(sha: Digest, memtree: seq<Node>, level: seq<Node>, start: nat, i: nat)
    requires i < |level| && start <= |memtree| && memtree[start..] == Flat(sha, level)
    ensures Climb(sha, level[i], Path(memtree, |level|, start, i), i) == memtree[|memtree| - 1]
    decreases |level|
  {
    hide Hash, NextLevel, Pair, Sibling, LevelSizes, Path, Flat, Climb;
    if |level| == 1 {
      OneLevel(sha, memtree, level, start);
    } else {
      var next := NextLevel(sha, level);
      ParentOf(sha, level, i);
      NextInFlat(sha, memtree, level, start);
      assert memtree[start + Sibling(i)] == memtree[start..][Sibling(i)];
      ClimbsToRoot(sha, memtree, next, start + |level|, i / 2);
      ClimbUnfold(sha, memtree, level, start, i);
    }
  }

  /** For every tree built from n leaves: a proof is extracted exactly for the indexes below n when the size
      check accepts, carries the leaf and the root of the tree, and is accepted by the verifier. */
  lemma ExtractedProofsVerify(sha: Digest, leaves: seq<Node>, leafIndex: int)
    requires leaves != []
    ensures var r := ProofFor(Flat(sha, leaves), leafIndex);
            && (r.Ok? <==> TotalNodes(|leaves|) <= 2 * |leaves| && 0 <= leafIndex < |leaves|)
            && (r.Ok? ==> && r.value.leaf == leaves[leafIndex]
                          && |r.value.path| == |LevelSizes(|leaves|)| - 1
                          && Accepts(sha, r.value, leafIndex))
  {
    SizeAcceptedIff(|leaves|);
    var t := Flat(sha, leaves);
    FlatStartsWith(sha, leaves);
    if TotalNodes(|leaves|) <= 2 * |leaves| && 0 <= leafIndex < |leaves| {
      assert t[0..] == t;
      ClimbsToRoot(sha, t, leaves, 0, leafIndex);
    }
  }

  /** Verification, one sibling at a time: without siblings the node is the root; otherwise the hash of node and sibling,
      in the order given by the index, is verified with the other siblings at half the index, rounded toward zero. */
  lemma AcceptsIff(sha: Digest, proof: Proof, index: int)
    ensures proof.path == [] ==> (Accepts(sha, proof, index) <==> proof.leaf == proof.root)
    ensures proof.path != [] ==>
              (Accepts(sha, proof, index) <==>
               exists parent: Node ::
                 && (if index % 2 == 0 then IsHash(sha, parent, proof.leaf, proof.path[0])
                     else IsHash(sha, parent, proof.path[0], proof.leaf))
                 && Accepts(sha, Proof(parent, proof.path[1..], proof.root),
                            if index >= 0 then index / 2 else -(-index / 2)))
  {
    hide Hash, Both, IsHash;
    if proof.path != [] {
      HashIs(sha, proof.leaf, proof.path[0]);
      HashIs(sha, proof.path[0], proof.leaf);
      var parent := Hash(sha, Pair(proof.leaf, proof.path[0], index));
      assert if index % 2 == 0 then IsHash(sha, parent, proof.leaf, proof.path[0])
             else IsHash(sha, parent, proof.path[0], proof.leaf);
    }
  }

  /** With one sibling: the root is the hash of the two, the node on the left exactly at even indexes. */
  lemma OneSibling(sha: Digest, leaf: Node, sibling: Node, root: Node, index: int)
    ensures Accepts(sha, Proof(leaf, [sibling], root), index) <==>
              if index % 2 == 0 then IsHash(sha, root, leaf, sibling) else IsHash(sha, root, sibling, leaf)
  {
    hide Hash, Both, IsHash;
    HashIs(sha, leaf, sibling);
    HashIs(sha, sibling, leaf);
    assert [sibling][1..] == [];
    assert Climb(sha, leaf, [sibling], index) == Hash(sha, Pair(leaf, sibling, index));
  }

  /** Why no proof is extracted from a built tree. */
  lemma ProofErrors(sha: Digest, leaves: seq<Node>, leafIndex: int)
    requires leaves != []
    ensures var r := ProofFor(Flat(sha, leaves), leafIndex);
            && (r == Err(MemtreeSize) <==> TotalNodes(|leaves|) > 2 * |leaves|)
            && (r == Err(LeafIndex) <==>
                  TotalNodes(|leaves|) <= 2 * |leaves| && !(0 <= leafIndex < |leaves|))
            && !r.Panic?
  {
    hide TotalNodes, Path;
    SizeAcceptedIff(|leaves|);
  }

  /** Walks two proofs up together and returns the first two different inputs with the same hash. */
  function Collision(sha: Digest, a: Node, pathA: seq<Node>, b: Node, pathB: seq<Node>, index: int)
    : Option<(seq<byte>, seq<byte>)>
    requires |pathA| == |pathB|
    decreases |pathA|
  {
    if pathA == [] then None else
      var x, y := Pair(a, pathA[0], index), Pair(b, pathB[0], index);
      if x != y && Hash(sha, x) == Hash(sha, y) then Some((x, y))
      else Collision(sha, Hash(sha, x), pathA[1..], Hash(sha, y), pathB[1..], Parent(index))
  }

  predicate IsCollision(sha: Digest, found: Option<(seq<byte>, seq<byte>)>) {
    && found.Some?
    && |found.value.0| == 64 && |found.value.1| == 64
    && found.value.0 != found.value.1 && Hash(sha, found.value.0) == Hash(sha, found.value.1)
  }

  /** Two climbs of equal length from the same index that reach the same root agree on the node and on every
      sibling, or exhibit a collision. */
  lemma {:induction false} SameRootSameProof(sha: Digest, a: Node, pathA: seq<Node>, b: Node, pathB: seq<Node>, index: int)
    requires |pathA| == |pathB|
    requires Climb(sha, a, pathA, index) == Climb(sha, b, pathB, index)
    ensures (a == b && pathA == pathB) || IsCollision(sha, Collision(sha, a, pathA, b, pathB, index))
    decreases |pathA|
  {
    if pathA == [] {
      assert pathB == [];
    } else {
      var x, y := Pair(a, pathA[0], index), Pair(b, pathB[0], index);
      SameRootSameProof(sha, Hash(sha, x), pathA[1..], Hash(sha, y), pathB[1..], Parent(index));
      if x == y {
        SamePair(a, pathA[0], b, pathB[0], index);
        assert pathA == [pathA[0]] + pathA[1..] && pathB == [pathB[0]] + pathB[1..];
      }
    }
  }

  lemma SamePair(a: Node, s: Node, b: Node, t: Node, index: int)
    requires Pair(a, s, index) == Pair(b, t, index)
    ensures a == b && s == t
  {
    var x, y := Pair(a, s, index), Pair(b, t, index);
    assert x[..32] == y[..32] && x[32..] == y[32..];
  }

  /** A proof of full depth accepted for the root of any built tree and a leaf's index carries that leaf and the
      tree's own siblings, or exhibits a collision with the tree's own path. */
  lemma BoundToTree(sha: Digest, leaves: seq<Node>, i: nat, claimed: Proof)
    requires i < |leaves| && claimed.root == Flat(sha, leaves)[|Flat(sha, leaves)| - 1]
    requires |claimed.path| == |LevelSizes(|leaves|)| - 1
    requires Accepts(sha, claimed, i)
    ensures var own := Path(Flat(sha, leaves), |leaves|, 0, i);
            || (claimed.leaf == leaves[i] && claimed.path == own)
            || IsCollision(sha, Collision(sha, leaves[i], own, claimed.leaf, claimed.path, i))
  {
    hide Flat, TotalNodes, Climb, Collision, LevelSizes, Path;
    var t := Flat(sha, leaves);
    assert t[0..] == t;
    ClimbsToRoot(sha, t, leaves, 0, i);
    SameRootSameProof(sha, leaves[i], Path(t, |leaves|, 0, i), claimed.leaf, claimed.path, i);
  }

  // ---- the operations

  /** computeTotalNodes, for arity 2. */
  method ComputeTotalNodes(nLeaves: nat) returns (totalNodes: nat, levelCounts: seq<nat>)
    ensures totalNodes == TotalNodes(nLeaves) && levelCounts == LevelSizes(nLeaves)
  {
    totalNodes, levelCounts := 0, [];
    var currLevelCount := nLeaves;
    while currLevelCount > 0
      invariant totalNodes + TotalNodes(currLevelCount) == TotalNodes(nLeaves)
      invariant levelCounts + LevelSizes(currLevelCount) == LevelSizes(nLeaves)
    {
      levelCounts := levelCounts + [currLevelCount];
      totalNodes := totalNodes + currLevelCount;
      if currLevelCount == 1 {
        return;
      }
      currLevelCount := (currLevelCount + 2 - 1) / 2;
    }
  }

  /** The hashing loops of BuildSha254Memtree, on the array that starts with the leaves. */
  method BuildMemtree(sha: Digest, leaves: seq<Node>) returns (memtree: array<Node>)
    requires leaves != []
    ensures memtree[..] == Flat(sha, leaves)
    ensures memtree[..|leaves|] == leaves
    ensures HashedAbove(sha, memtree[..], |leaves|)
  {
    hide Hash, NextLevel, LevelSizes, Flat, TotalNodes, BuiltUpTo, HashedAbove;
    var totalNodes, levelSizes := ComputeTotalNodes(|leaves|);
    memtree := new Node[totalNodes](_ => Zeros(NODE_SIZE));
    forall i | 0 <= i < |leaves| {
      memtree[i] := leaves[i];
    }
    ghost var current := leaves;
    var prevStart, level := 0, 1;
    BuiltStart(sha, memtree[..], leaves);
    while level < |levelSizes|
      invariant 1 <= level <= |levelSizes|
      invariant 0 <= prevStart && |current| > 0 && levelSizes[level - 1..] == LevelSizes(|current|)
      invariant BuiltUpTo(sha, memtree[..], leaves, current, prevStart)
    {
      LevelSizesUnfold(levelSizes, level, |current|);
      ghost var before := memtree[..];
      var currStart := prevStart + levelSizes[level - 1];
      BuiltRoom(sha, before, leaves, current, prevStart);
      BuildLevel(sha, memtree, prevStart, currStart, levelSizes[level], current);
      BuiltStep(sha, before, memtree[..], leaves, current, prevStart);
      current, prevStart, level := NextLevel(sha, current), currStart, level + 1;
    }
    LastLevelSize(levelSizes, |current|);
    BuiltDone(sha, memtree[..], leaves, current, prevStart);
    FlatIsHashed(sha, leaves);
  }

  lemma LastLevelSize(sizes: seq<nat>, n: nat)
    requires n > 0 && sizes != [] && sizes[|sizes| - 1..] == LevelSizes(n)
    ensures n == 1
  {
  }

  lemma BuiltStart(sha: Digest, memtree: seq<Node>, leaves: seq<Node>)
    requires |memtree| == TotalNodes(|leaves|)
    requires forall i :: 0 <= i < |leaves| ==> memtree[i] == leaves[i]
    ensures BuiltUpTo(sha, memtree, leaves, leaves, 0)
  {
  }

  /** The levels below `current` are in place, and `current` is stored where its level starts. */
  ghost predicate BuiltUpTo(sha: Digest, memtree: seq<Node>, leaves: seq<Node>, current: seq<Node>, start: nat) {
    && start + TotalNodes(|current|) == |memtree|
    && memtree[..start] + Flat(sha, current) == Flat(sha, leaves)
    && memtree[start..start + |current|] == current
  }

  lemma LevelSizesUnfold(sizes: seq<nat>, level: nat, n: nat)
    requires 0 < level < |sizes| && n > 0 && sizes[level - 1..] == LevelSizes(n)
    ensures n > 1 && sizes[level - 1] == n && sizes[level] == Half(n) && sizes[level..] == LevelSizes(Half(n))
  {
  }

  lemma BuiltRoom(sha: Digest, memtree: seq<Node>, leaves: seq<Node>, current: seq<Node>, start: nat)
    requires |current| > 1 && BuiltUpTo(sha, memtree, leaves, current, start)
    ensures start + |current| + Half(|current|) <= |memtree|
    ensures memtree[start..start + |current|] == current
  {
  }

  lemma BuiltStep(sha: Digest, before: seq<Node>, after: seq<Node>, leaves: seq<Node>, current: seq<Node>, start: nat)
    requires |current| > 1 && |after| == |before| && BuiltUpTo(sha, before, leaves, current, start)
    requires var next := start + |current|;
             && next + Half(|current|) <= |after| && after[..next] == before[..next]
             && after[next..next + Half(|current|)] == NextLevel(sha, current)
    ensures BuiltUpTo(sha, after, leaves, NextLevel(sha, current), start + |current|)
  {
    hide NextLevel;
    var next := start + |current|;
    assert after[..next] == before[..start] + current;
    var rest := Flat(sha, NextLevel(sha, current));
    assert before[..start] + (current + rest) == before[..start] + current + rest;
  }

  lemma BuiltDone(sha: Digest, memtree: seq<Node>, leaves: seq<Node>, current: seq<Node>, start: nat)
    requires |current| == 1 && BuiltUpTo(sha, memtree, leaves, current, start)
    ensures memtree == Flat(sha, leaves)
  {
    assert memtree == memtree[..start] + memtree[start..start + 1];
  }

  /** One level: hash pairs of the level before, storing each hash and then clearing its top bits. */
  method BuildLevel(sha: Digest, memtree: array<Node>, prevStart: nat, currStart: nat, levelNodes: nat,
                    ghost current: seq<Node>)
    requires |current| > 1 && currStart == prevStart + |current| && levelNodes == Half(|current|)
    requires currStart + levelNodes <= memtree.Length
    requires memtree[..][prevStart..currStart] == current
    modifies memtree
    ensures memtree[..][..currStart] == old(memtree[..])[..currStart]
    ensures memtree[..][currStart..currStart + levelNodes] == NextLevel(sha, current)
  {
    hide NextLevel, Both, Masked;
    ghost var next := NextLevel(sha, current);
    for i := 0 to levelNodes
      invariant memtree[..currStart] == old(memtree[..currStart])
      invariant memtree[prevStart..currStart] == current
      invariant forall k :: 0 <= k < i ==> memtree[currStart + k] == next[k]
    {
      var left := prevStart + 2 * i;
      NextAt(sha, current, i);
      assert memtree[left] == memtree[prevStart..currStart][2 * i];
      assert 2 * i + 1 < |current| ==> memtree[left + 1] == memtree[prevStart..currStart][2 * i + 1];
      memtree[currStart + i] := sha(Both(memtree[left], memtree[left + 1]));
      memtree[currStart + i] := Masked(memtree[currStart + i]);
      assert memtree[prevStart..currStart] == memtree[..currStart][prevStart..];
    }
  }

  /** MemtreeProof. Its level loop does not end on an empty memtree, since a count of zero stays zero. */
  method MemtreeProof(memtree: seq<Node>, leafIndex: int) returns (r: Outcome<Proof>)
    requires |memtree| > 0
    ensures r == ProofFor(memtree, leafIndex)
  {
    hide TotalNodes, LevelSizes, Path;
    var totalNodes := |memtree|;
    var nLeaves := (totalNodes + 1) / 2;
    var levelSizes, totalNodesCheck := ReconstructLevels(nLeaves);
    if totalNodesCheck != totalNodes {
      return Err(MemtreeSize);
    }
    if leafIndex < 0 || leafIndex >= levelSizes[0] {
      return Err(LeafIndex);
    }
    var path, rootOffset := CollectPath(memtree, levelSizes, leafIndex);
    r := Ok(Proof(memtree[leafIndex], path, memtree[rootOffset]));
  }

  /** MemtreeProof's level loop. */
  method ReconstructLevels(nLeaves: nat) returns (levelSizes: seq<nat>, totalNodesCheck: nat)
    requires nLeaves > 0
    ensures levelSizes == LevelSizes(nLeaves) && totalNodesCheck == TotalNodes(nLeaves)
  {
    var currLevelCount := nLeaves;
    levelSizes, totalNodesCheck := [], 0;
    while true
      invariant currLevelCount > 0
      invariant totalNodesCheck + TotalNodes(currLevelCount) == TotalNodes(nLeaves)
      invariant levelSizes + LevelSizes(currLevelCount) == LevelSizes(nLeaves)
      decreases currLevelCount
    {
      levelSizes := levelSizes + [currLevelCount];
      totalNodesCheck := totalNodesCheck + currLevelCount;
      if currLevelCount == 1 {
        break;
      }
      currLevelCount := (currLevelCount + 2 - 1) / 2;
    }
  }

  /** The loop that collects the siblings, with the level starts summed along the way. */
  method CollectPath(memtree: seq<Node>, levelSizes: seq<nat>, leafIndex: nat) returns (path: seq<Node>, rootOffset: nat)
    requires levelSizes != [] && levelSizes == LevelSizes(levelSizes[0]) && levelSizes[0] > 0
    requires TotalNodes(levelSizes[0]) == |memtree| && leafIndex < levelSizes[0]
    ensures path == Path(memtree, levelSizes[0], 0, leafIndex)
    ensures rootOffset == |memtree| - 1
  {
    hide LevelSizes, TotalNodes, Path, Sibling, Half;
    path := [];
    var index, start, level := leafIndex, 0, 0;
    ghost var spec := Path(memtree, levelSizes[0], 0, leafIndex);
    while level < |levelSizes| - 1
      invariant 0 <= level < |levelSizes| && 0 <= index < levelSizes[level] && 0 <= start
      invariant levelSizes[level..] == LevelSizes(levelSizes[level])
      invariant start + TotalNodes(levelSizes[level]) == |memtree|
      invariant path + Path(memtree, levelSizes[level], start, index) == spec
    {
      CollectStep(memtree, levelSizes, level, start, index, path);
      var siblingIndex := Sibling(index);
      path := path + [memtree[start + siblingIndex]];
      index := index / 2;
      start := start + levelSizes[level];
      level := level + 1;
    }
    LastLevelSize(levelSizes, levelSizes[level]);
    PathUnfold(memtree, levelSizes[level], start, index);
    assert path + [] == path;
    rootOffset := start;
  }

  /** One turn of the loop. */
  lemma CollectStep(memtree: seq<Node>, sizes: seq<nat>, level: nat, start: nat, index: nat, path: seq<Node>)
    requires level + 1 < |sizes| && index < sizes[level] && sizes[level..] == LevelSizes(sizes[level])
    requires start + TotalNodes(sizes[level]) == |memtree|
    ensures start + Sibling(index) < |memtree| && index / 2 < sizes[level + 1]
    ensures sizes[level + 1..] == LevelSizes(sizes[level + 1])
    ensures start + sizes[level] + TotalNodes(sizes[level + 1]) == |memtree|
    ensures path + Path(memtree, sizes[level], start, index)
         == path + [memtree[start + Sibling(index)]] + Path(memtree, sizes[level + 1], start + sizes[level], index / 2)
  {
    hide LevelSizes, TotalNodes, Path, Sibling, Half;
    LevelSizesUnfold(sizes, level + 1, sizes[level]);
    PathUnfold(memtree, sizes[level], start, index);
    var rest := Path(memtree, sizes[level + 1], start + sizes[level], index / 2);
    assert path + ([memtree[start + Sibling(index)]] + rest) == path + [memtree[start + Sibling(index)]] + rest;
  }

  lemma PathUnfold(memtree: seq<Node>, n: nat, start: nat, i: nat)
    requires n > 0 && i < n && start + TotalNodes(n) == |memtree|
    ensures n == 1 ==> Path(memtree, n, start, i) == [] && start == |memtree| - 1
    ensures n > 1 ==>
      && start + Sibling(i) < |memtree| && i / 2 < Half(n) && start + n + TotalNodes(Half(n)) == |memtree|
      && Path(memtree, n, start, i) == [memtree[start + Sibling(i)]] + Path(memtree, Half(n), start + n, i / 2)
  {
  }

  /** VerifyMerkleProof. */
  method VerifyMerkleProof(sha: Digest, proof: Proof, leafIndex: int) returns (ok: bool)
    ensures ok == Accepts(sha, proof, leafIndex)
  {
    hide Hash, Pair;
    var currentHash := proof.leaf;
    var index := leafIndex;
    for i := 0 to |proof.path|
      invariant Climb(sha, currentHash, proof.path[i..], index) == Climb(sha, proof.leaf, proof.path, leafIndex)
    {
      assert proof.path[i..][1..] == proof.path[i + 1..];
      currentHash := Hash(sha, Pair(currentHash, proof.path[i], index));
      index := Parent(index);
    }
    ok := currentHash == proof.root;
  }
}
