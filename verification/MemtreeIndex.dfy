/** What an accepted Merkle proof says about its index: which of an index's bits the verifier looks at, and which
    node of a built tree a full-depth proof binds at every index, also at those that name no leaf. */
module MemtreeIndex {
  import opened Base
  import opened Memtree

  function Pow2(d: nat): (r: nat)
    ensures r > 0
  {
    if d == 0 then 1 else 2 * Pow2(d - 1)
  }

  /** How many indexes a path of full depth tells apart. */
  function Width(n: nat): (w: nat)
    requires n > 0
    ensures w > 0
  {
    if n == 1 then 1 else 2 * Width(Half(n))
  }

  lemma {:induction false} WidthIs(n: nat)
    requires n > 0
    ensures n <= Width(n) == Pow2(|LevelSizes(n)| - 1)
  {
    if n == 1 {
    } else {
      WidthIs(Half(n));
    }
  }

  /** The lowest bits of an index's absolute value, the lowest first. */
  function Lowest(index: int, bits: nat): seq<bool>
    decreases bits
  {
    if bits == 0 then [] else [index % 2 == 1] + Lowest(Parent(index), bits - 1)
  }

  lemma LowestUnfold(index: int, bits: nat)
    requires bits > 0
    ensures Lowest(index, bits)[0] == (index % 2 == 1)
    ensures Lowest(index, bits)[1..] == Lowest(Parent(index), bits - 1)
  {
  }

  /** Verification looks only at the lowest bits of an index, as many as the path has siblings, and not at its
      sign. */
  lemma {:induction false} ClimbLowBits(sha: Digest, current: Node, path: seq<Node>, i: int, j: int)
    requires Lowest(i, |path|) == Lowest(j, |path|)
    ensures Climb(sha, current, path, i) == Climb(sha, current, path, j)
    decreases |path|
  {
    hide Hash, Lowest, Parent;
    if path == [] {
    } else {
      LowestUnfold(i, |path|);
      LowestUnfold(j, |path|);
      assert (i % 2 == 1) == (j % 2 == 1);
      ClimbLowBits(sha, Hash(sha, Pair(current, path[0], i)), path[1..], Parent(i), Parent(j));
    }
  }

  lemma HalfSum(i: nat, m: nat)
    ensures (i + 2 * m) / 2 == i / 2 + m && (i + 2 * m) % 2 == i % 2
  {
  }

  lemma {:induction false} LowestOfSum(i: nat, q: nat, bits: nat)
    ensures Lowest(i + q * Pow2(bits), bits) == Lowest(i, bits)
  {
    if bits == 0 {
    } else {
      var m := q * Pow2(bits - 1);
      assert q * Pow2(bits) == 2 * m;
      HalfSum(i, m);
      LowestOfSum(i / 2, q, bits - 1);
    }
  }

  lemma {:induction false} LowestOfNegative(i: int, bits: nat)
    requires i >= 0
    ensures Lowest(-i, bits) == Lowest(i, bits)
    decreases bits
  {
    if bits == 0 {
    } else {
      LowestOfNegative(i / 2, bits - 1);
      assert Parent(-i) == -(i / 2) && (-i) % 2 == i % 2;
    }
  }

  /** Past the end of a level of n nodes, at index i: the index in the next level of the node that is there. The slot
      at the end of an odd level is the next level's first node; what a path finds below that is below that node. */
  function Past(n: nat, i: nat): nat
    requires 1 < n <= i < Width(n)
    decreases n
  {
    if i / 2 < Half(n) then 0 else 2 * Past(Half(n), i / 2) + i % 2
  }

  lemma {:induction false} PastInRange(n: nat, i: nat)
    requires 1 < n <= i < Width(n)
    ensures 2 * Past(n, i) + 3 <= n
    decreases n
  {
    if i / 2 < Half(n) {
      assert i == n;
      assert Width(2) == 2 * Width(1);
    } else {
      PastInRange(Half(n), i / 2);
    }
  }

  /** The node that index i of a level stands for. */
  function NodeAt(sha: Digest, level: seq<Node>, i: nat): Node
    requires level != [] && i < Width(|level|)
  {
    if i < |level| then level[i]
    else
      PastInRange(|level|, i);
      NextLevel(sha, level)[Past(|level|, i)]
  }

  lemma SiblingInWidth(n: nat, i: nat)
    requires n > 1 && i < Width(n)
    ensures Sibling(i) < Width(n) && i / 2 < Width(Half(n)) && Sibling(i) / 2 == i / 2
    ensures Sibling(i) == if i % 2 == 0 then i + 1 else i - 1
  {
  }

  /** The siblings on the way up from index i, whether it names a leaf or not. */
  function PathAt(sha: Digest, level: seq<Node>, i: nat): (path: seq<Node>)
    requires level != [] && i < Width(|level|)
    ensures |path| == |LevelSizes(|level|)| - 1
    decreases |level|
  {
    if |level| == 1 then []
    else
      SiblingInWidth(|level|, i);
      [NodeAt(sha, level, Sibling(i))] + PathAt(sha, NextLevel(sha, level), i / 2)
  }

  /** Below the end of a level: a node, or the slot at the end. */
  lemma NodeNear(sha: Digest, level: seq<Node>, i: nat)
    requires |level| > 1 && i < Width(|level|) && i / 2 < Half(|level|)
    ensures NodeAt(sha, level, i) == if i < |level| then level[i] else NextLevel(sha, level)[0]
  {
    hide NextLevel;
  }

  /** Further on: a node below the one that half the index stands for. */
  lemma NodeFar(sha: Digest, level: seq<Node>, i: nat)
    requires |level| > 1 && i < Width(|level|) && i / 2 >= Half(|level|)
    ensures Half(|level|) > 1 && i / 2 < Width(Half(|level|)) && 2 * Past(Half(|level|), i / 2) + 3 <= Half(|level|)
    ensures NodeAt(sha, level, i) == NextLevel(sha, level)[2 * Past(Half(|level|), i / 2) + i % 2]
    ensures NodeAt(sha, NextLevel(sha, level), i / 2)
         == NextLevel(sha, NextLevel(sha, level))[Past(Half(|level|), i / 2)]
  {
    hide NextLevel;
    PastInRange(Half(|level|), i / 2);
  }

  lemma NodeAboveNear(sha: Digest, level: seq<Node>, i: nat)
    requires |level| > 1 && i < Width(|level|) && i / 2 < Half(|level|)
    requires Sibling(i) < Width(|level|) && i / 2 < Width(Half(|level|)) && Sibling(i) / 2 == i / 2
    ensures NodeAt(sha, NextLevel(sha, level), i / 2)
         == Hash(sha, Pair(NodeAt(sha, level, i), NodeAt(sha, level, Sibling(i)), i))
  {
    hide NextLevel, Hash, Both, NodeAt, Past, Width;
    NodeNear(sha, level, i);
    NodeNear(sha, level, Sibling(i));
    NodeInLevel(sha, NextLevel(sha, level), i / 2);
    NextAt(sha, level, i / 2);
  }

  lemma NodeAboveFar(sha: Digest, level: seq<Node>, i: nat)
    requires |level| > 1 && i < Width(|level|) && i / 2 >= Half(|level|)
    requires Sibling(i) < Width(|level|) && i / 2 < Width(Half(|level|)) && Sibling(i) / 2 == i / 2
    ensures NodeAt(sha, NextLevel(sha, level), i / 2)
         == Hash(sha, Pair(NodeAt(sha, level, i), NodeAt(sha, level, Sibling(i)), i))
  {
    hide NextLevel, Hash, Both, NodeAt, Past, Width;
    NodeFar(sha, level, i);
    NodeFar(sha, level, Sibling(i));
    NextAt(sha, NextLevel(sha, level), Past(Half(|level|), i / 2));
  }

  /** At every index the node of the next level is the hash of the pair below it. */
  lemma NodeAbove(sha: Digest, level: seq<Node>, i: nat)
    requires |level| > 1 && i < Width(|level|)
    ensures Sibling(i) < Width(|level|) && i / 2 < Width(Half(|level|))
    ensures NodeAt(sha, NextLevel(sha, level), i / 2)
         == Hash(sha, Pair(NodeAt(sha, level, i), NodeAt(sha, level, Sibling(i)), i))
  {
    hide NextLevel, Hash, Pair, NodeAt, Width, Sibling;
    SiblingInWidth(|level|, i);
    if i / 2 < Half(|level|) {
      NodeAboveNear(sha, level, i);
    } else {
      NodeAboveFar(sha, level, i);
    }
  }

  lemma NodeInLevel(sha: Digest, level: seq<Node>, i: nat)
    requires i < |level| && i < Width(|level|)
    ensures NodeAt(sha, level, i) == level[i]
  {
  }

  lemma {:induction false} ClimbsFrom(sha: Digest, level: seq<Node>, i: nat)
    requires level != [] && i < Width(|level|)
    ensures Climb(sha, NodeAt(sha, level, i), PathAt(sha, level, i), i) == Root(sha, level)
    decreases |level|
  {
    hide NextLevel, Hash, Pair, NodeAt;
    if |level| == 1 {
      OnlyNode(sha, level);
    } else {
      NodeAbove(sha, level, i);
      ClimbsFrom(sha, NextLevel(sha, level), i / 2);
      PathUp(sha, level, i);
      RootUp(sha, level);
    }
  }

  lemma OnlyNode(sha: Digest, level: seq<Node>)
    requires |level| == 1
    ensures NodeAt(sha, level, 0) == level[0] == Root(sha, level)
  {
  }

  lemma PathUp(sha: Digest, level: seq<Node>, i: nat)
    requires |level| > 1 && i < Width(|level|)
    ensures Sibling(i) < Width(|level|) && i / 2 < Width(Half(|level|))
    ensures PathAt(sha, level, i)
         == [NodeAt(sha, level, Sibling(i))] + PathAt(sha, NextLevel(sha, level), i / 2)
  {
    hide NodeAt, NextLevel, Width, Sibling;
    SiblingInWidth(|level|, i);
  }

  lemma RootUp(sha: Digest, level: seq<Node>)
    requires |level| > 1
    ensures Root(sha, level) == Root(sha, NextLevel(sha, level))
  {
    hide NextLevel;
  }

  lemma Divided(index: nat, w: nat)
    requires w > 0
    ensures index % w < w && index == index % w + index / w * w
  {
  }

  /** The last node of the flat tree. */
  function Root(sha: Digest, level: seq<Node>): Node
    requires level != []
  {
    Flat(sha, level)[|Flat(sha, level)| - 1]
  }

  /** With a path of full depth, verification at any index is verification at its remainder by the width. */
  lemma OnlyRemainder(sha: Digest, current: Node, path: seq<Node>, index: nat, n: nat)
    requires n > 0 && |path| == |LevelSizes(n)| - 1
    ensures Climb(sha, current, path, index) == Climb(sha, current, path, index % Width(n))
  {
    hide Climb, LevelSizes, Hash, Width, Lowest, Pow2;
    var w := Pow2(|path|);
    WidthIs(n);
    Divided(index, w);
    LowestOfSum(index % w, index / w, |path|);
    ClimbLowBits(sha, current, path, index, index % w);
  }

  /** A negative index is verified like its absolute value. */
  lemma NegativeIndex(sha: Digest, current: Node, path: seq<Node>, index: int)
    requires index >= 0
    ensures Climb(sha, current, path, -index) == Climb(sha, current, path, index)
  {
    hide Climb, Hash, Lowest;
    LowestOfNegative(index, |path|);
    ClimbLowBits(sha, current, path, -index, index);
  }

  /** Which node a full-depth proof binds, for every index: exactly one node and path is accepted for the root of a
      built tree, unless there is a collision. The index counts modulo the tree's width: below the number of
      leaves it names that leaf, and from there on an inner node of the level above the leaves. */
  lemma IndexBinds(sha: Digest, leaves: seq<Node>, index: nat, claimed: Proof)
    requires leaves != [] && claimed.root == Root(sha, leaves)
    requires |claimed.path| == |LevelSizes(|leaves|)| - 1
    ensures var i := index % Width(|leaves|);
            var node, path := NodeAt(sha, leaves, i), PathAt(sha, leaves, i);
            && (claimed.leaf == node && claimed.path == path ==> Accepts(sha, claimed, index))
            && (Accepts(sha, claimed, index) ==>
                  || (claimed.leaf == node && claimed.path == path)
                  || IsCollision(sha, Collision(sha, node, path, claimed.leaf, claimed.path, i)))
  {
    hide NodeAt, PathAt, Root, Climb, Collision, LevelSizes, Width;
    var i := index % Width(|leaves|);
    ClimbsFrom(sha, leaves, i);
    OnlyRemainder(sha, claimed.leaf, claimed.path, index, |leaves|);
    if Accepts(sha, claimed, index) {
      SameRootSameProof(sha, NodeAt(sha, leaves, i), PathAt(sha, leaves, i), claimed.leaf, claimed.path, i);
    }
  }

  /** Three leaves have four indexes: index 3 names the first node above the leaves. */
  lemma InnerNodeAsLeaf(sha: Digest, leaves: seq<Node>)
    requires |leaves| == 3
    ensures Width(3) == 4
    ensures var inner := Hash(sha, Both(leaves[0], leaves[1]));
            Accepts(sha, Proof(inner, [leaves[2], inner], Root(sha, leaves)), 3)
  {
    hide Hash, Both, Root;
    assert Width(3) == 2 * Width(2) && Width(2) == 2 * Width(1);
    ClimbsFrom(sha, leaves, 3);
    var next := NextLevel(sha, leaves);
    assert NodeAt(sha, leaves, 3) == next[0] && next[0] == Hash(sha, Both(leaves[0], leaves[1]));
    PathUp(sha, leaves, 3);
    PathUp(sha, next, 1);
    assert PathAt(sha, leaves, 3) == [leaves[2], next[0]];
  }
}
