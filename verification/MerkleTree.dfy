/**
 The Merkle tree a Bitcoin block header commits to, over nodes of any type, and the fold of a branch.
 `h` hashes an ordered pair of nodes; no law of it is assumed except, where a lemma says so, that no
 collision occurs among the pairs actually hashed.
 */
module MerkleTree {

  type PairHash<!T> = (T, T) -> T

  /** The pair hashed for a node and its sibling; the low index bit says on which side the node is. */
  function Ordered<T>(cur: T, sibling: T, index: nat): (T, T) {
    if index % 2 == 0 then (cur, sibling) else (sibling, cur)
  }

  function HashPair<T>(h: PairHash<T>, p: (T, T)): T {
    h(p.0, p.1)
  }

  /** Folds a node up a branch. */
  function Fold<T>(h: PairHash<T>, cur: T, branch: seq<T>, index: nat): T
    decreases |branch|
  {
    if |branch| == 0 then cur
    else Fold(h, HashPair(h, Ordered(cur, branch[0], index)), branch[1..], index / 2)
  }

  /** Folding from position `i` of a branch hashes its node there and goes on with the rest. */
  lemma {:induction false} FoldFrom<T>(h: PairHash<T>, cur: T, branch: seq<T>, i: nat, index: nat)
    requires i < |branch|
    ensures Fold(h, cur, branch[i..], index)
         == Fold(h, HashPair(h, Ordered(cur, branch[i], index)), branch[i + 1..], index / 2)
  {
    assert branch[i..][1..] == branch[i + 1..];
  }

  /** Bit `k` of an index, the lowest being bit 0. */
  function Bit(index: nat, k: nat): nat {
    if k == 0 then index % 2 else Bit(index / 2, k - 1)
  }

  /** One more node at the end of a branch: what the branch folds to is hashed with it, on the side the index bit of
      that level says. */
  lemma {:induction false} FoldOneMore<T>(h: PairHash<T>, cur: T, branch: seq<T>, last: T, index: nat)
    ensures Fold(h, cur, branch + [last], index) ==
      if Bit(index, |branch|) == 0 then h(Fold(h, cur, branch, index), last)
      else h(last, Fold(h, cur, branch, index))
    decreases |branch|
  {
    var all := branch + [last];
    assert all[1..] == if |branch| == 0 then [] else branch[1..] + [last];
    if |branch| > 0 {
      FoldOneMore(h, HashPair(h, Ordered(cur, branch[0], index)), branch[1..], last, index / 2);
    }
  }

  /** The node at position `k` of a level, where an odd level repeats its last node. */
  function NodeAt<T>(level: seq<T>, k: nat): T
    requires |level| > 0
  {
    if k < |level| then level[k] else level[|level| - 1]
  }

  function PairAt<T>(level: seq<T>, k: nat): (T, T)
    requires |level| > 0
  {
    (NodeAt(level, 2 * k), NodeAt(level, 2 * k + 1))
  }

  function NextLevel<T>(h: PairHash<T>, level: seq<T>): (next: seq<T>)
    requires |level| > 0
    ensures |next| == (|level| + 1) / 2
    ensures forall k :: 0 <= k < |next| ==> next[k] == HashPair(h, PairAt(level, k))
  {
    seq((|level| + 1) / 2, k requires 0 <= k < (|level| + 1) / 2 => HashPair(h, PairAt(level, k)))
  }

  /** The Merkle root of a block's transaction ids. */
  function Root<T>(h: PairHash<T>, level: seq<T>): T
    requires |level| > 0
    decreases |level|
  {
    if |level| == 1 then level[0] else Root(h, NextLevel(h, level))
  }

  function Depth(n: nat): nat {
    if n <= 1 then 0 else 1 + Depth((n + 1) / 2)
  }

  function Pow2(k: nat): nat {
    if k == 0 then 1 else 2 * Pow2(k - 1)
  }

  /** The leaf an index of the padded tree stands for: itself, or the last leaf when it falls in padding. */
  function LeafOf(n: nat, index: nat): (leaf: nat)
    requires n > 0
    ensures leaf < n
    decreases n
  {
    if n == 1 then 0
    else
      var child := 2 * LeafOf((n + 1) / 2, index / 2) + index % 2;
      if child < n then child else n - 1
  }

  /** The honest branch for an index of the padded tree. */
  function Branch<T>(h: PairHash<T>, level: seq<T>, index: nat): (b: seq<T>)
    requires |level| > 0
    ensures |b| == Depth(|level|)
    decreases |level|
  {
    if |level| == 1 then []
    else [SiblingOf(level, LeafOf((|level| + 1) / 2, index / 2), index)] + Branch(h, NextLevel(h, level), index / 2)
  }

  /** The other child of `parent` than the one on the side `index` says. */
  function SiblingOf<T>(level: seq<T>, parent: nat, index: nat): T
    requires |level| > 0
  {
    NodeAt(level, if index % 2 == 0 then 2 * parent + 1 else 2 * parent)
  }

  /** Every pair hashed while building the tree. */
  ghost function TreeInputs<T>(h: PairHash<T>, level: seq<T>): set<(T, T)>
    requires |level| > 0
    decreases |level|
  {
    if |level| == 1 then {}
    else (set k | 0 <= k < (|level| + 1) / 2 :: PairAt(level, k)) + TreeInputs(h, NextLevel(h, level))
  }

  /** Every pair hashed while folding a branch. */
  ghost function FoldInputs<T>(h: PairHash<T>, cur: T, branch: seq<T>, index: nat): set<(T, T)>
    decreases |branch|
  {
    if |branch| == 0 then {}
    else
      var p := Ordered(cur, branch[0], index);
      {p} + FoldInputs(h, HashPair(h, p), branch[1..], index / 2)
  }

  /** No pair of one set collides with a pair of the other. */
  ghost predicate NoCollision<T>(h: PairHash<T>, xs: set<(T, T)>, ys: set<(T, T)>) {
    forall x, y :: x in xs && y in ys && HashPair(h, x) == HashPair(h, y) ==> x == y
  }

  /** Inside the block every index stands for itself. */
  lemma {:induction false} LeafOfInside(n: nat, index: nat)
    requires index < n
    ensures LeafOf(n, index) == index
    decreases n
  {
    if n > 1 {
      LeafOfInside((n + 1) / 2, index / 2);
    }
  }

  /** Completeness: the honest branch of any index folds the leaf it stands for to the root. */
  lemma {:induction false} HonestBranchFolds<T>(h: PairHash<T>, level: seq<T>, index: nat)
    requires |level| > 0
    ensures Fold(h, level[LeafOf(|level|, index)], Branch(h, level, index), index) == Root(h, level)
    decreases |level|
  {
    if |level| > 1 {
      var next := NextLevel(h, level);
      HonestBranchFolds(h, next, index / 2);
      BindStep(level, level[LeafOf(|level|, index)], Branch(h, level, index)[0], index);
      assert Branch(h, level, index)[1..] == Branch(h, next, index / 2);
    }
  }

  /** The leaf an index stands for is a child of the node its parent index stands for. */
  lemma {:induction false} LeafIsChild<T>(level: seq<T>, index: nat)
    requires |level| > 1
    ensures level[LeafOf(|level|, index)] == NodeAt(level, 2 * LeafOf((|level| + 1) / 2, index / 2) + index % 2)
  {
  }

  /** A child and a sibling, ordered by the index, are the pair their parent hashes exactly if the child is
      the parent's on that side and the sibling the other. */
  lemma OrderedIsPair<T>(level: seq<T>, x: T, sibling: T, index: nat, parent: nat)
    requires |level| > 0
    ensures Ordered(x, sibling, index) == PairAt(level, parent)
      <==> x == NodeAt(level, 2 * parent + index % 2) && sibling == SiblingOf(level, parent, index)
  {
  }

  /** A leaf and its honest sibling, ordered by the index, are the pair their parent hashes, and no other
      two nodes are. */
  lemma {:induction false} BindStep<T>(level: seq<T>, x: T, sibling: T, index: nat)
    requires |level| > 1
    ensures var parent := LeafOf((|level| + 1) / 2, index / 2);
      && (Ordered(x, sibling, index) == PairAt(level, parent) <==>
            x == level[LeafOf(|level|, index)] && sibling == SiblingOf(level, parent, index))
  {
    LeafIsChild(level, index);
    OrderedIsPair(level, x, sibling, index, LeafOf((|level| + 1) / 2, index / 2));
  }

  /** Binding: a branch of exactly the tree's depth that folds some value to the root starts from the
      leaf its index stands for and is the honest branch, unless a pair hashed in the fold collides
      with a pair hashed in the tree. */
  lemma {:induction false} FoldBindsLeaf<T>(h: PairHash<T>, level: seq<T>, x: T, branch: seq<T>, index: nat)
    requires |level| > 0 && |branch| == Depth(|level|)
    requires Fold(h, x, branch, index) == Root(h, level)
    requires NoCollision(h, FoldInputs(h, x, branch, index), TreeInputs(h, level))
    ensures x == level[LeafOf(|level|, index)]
    ensures branch == Branch(h, level, index)
    decreases |level|
  {
    if |level| > 1 {
      var next := NextLevel(h, level);
      var p := Ordered(x, branch[0], index);
      InputsNest(h, level, x, branch, index);
      FoldBindsLeaf(h, next, HashPair(h, p), branch[1..], index / 2);
      var parent := LeafOf(|next|, index / 2);
      assert next[parent] == HashPair(h, PairAt(level, parent)) == HashPair(h, p);
      BindStep(level, x, branch[0], index);
      assert branch == [branch[0]] + branch[1..];
    }
  }

  lemma {:induction false} InputsNest<T>(h: PairHash<T>, level: seq<T>, x: T, branch: seq<T>, index: nat)
    requires |level| > 1 && |branch| > 0
    ensures var p := Ordered(x, branch[0], index);
      && p in FoldInputs(h, x, branch, index)
      && FoldInputs(h, HashPair(h, p), branch[1..], index / 2) <= FoldInputs(h, x, branch, index)
    ensures TreeInputs(h, NextLevel(h, level)) <= TreeInputs(h, level)
    ensures forall k :: 0 <= k < (|level| + 1) / 2 ==> PairAt(level, k) in TreeInputs(h, level)
  {
  }

  /** Index bits above the branch length are ignored. */
  lemma {:induction false} HighBitsIgnored<T>(h: PairHash<T>, cur: T, branch: seq<T>, index: nat, above: nat)
    ensures Fold(h, cur, branch, index) == Fold(h, cur, branch, index + above * Pow2(|branch|))
    decreases |branch|
  {
    if |branch| > 0 {
      var half := above * Pow2(|branch| - 1);
      assert above * Pow2(|branch|) == 2 * half;
      assert (index + 2 * half) % 2 == index % 2 && (index + 2 * half) / 2 == index / 2 + half;
      HighBitsIgnored(h, HashPair(h, Ordered(cur, branch[0], index)), branch[1..], index / 2, above);
    }
  }

  /** Why the depth must be known: an inner node folds to the same root along a branch shorter by one,
      so a fold alone does not tell leaves from inner nodes. */
  lemma {:induction false} InnerNodeFolds<T>(h: PairHash<T>, level: seq<T>, index: nat)
    requires |level| > 1
    ensures Fold(h, HashPair(h, PairAt(level, LeafOf((|level| + 1) / 2, index / 2))),
                 Branch(h, level, index)[1..], index / 2)
         == Root(h, level)
  {
    HonestBranchFolds(h, NextLevel(h, level), index / 2);
    assert Branch(h, level, index)[1..] == Branch(h, NextLevel(h, level), index / 2);
  }
}
