/**
 Merkle inclusion over textual proofs (crates/rfq-consignment/src/merkle.rs): a transaction id and its
 branch arrive as display-order hex; the fold runs over 32-byte hashes in internal order. The 64-byte
 hash function is a parameter.
 */
module Merkle {
  import opened Bytes
  import opened Options
  import opened Hex
  import opened MerkleTree

  type HashFunction = seq<byte> -> Bytes32

  /** Longest branch accepted. */
  const MAX_MERKLE_DEPTH := 32

  function Concat(left: seq<byte>, right: seq<byte>): seq<byte> {
    left + right
  }

  /** Hashing two nodes is hashing their 64 concatenated bytes. */
  function Pairing(h: HashFunction): PairHash<Bytes32> {
    (left: Bytes32, right: Bytes32) => h(Concat(left, right))
  }

  /** All the hashes of a list of display texts, if every one is well formed. */
  function ParseAll(texts: seq<string>): (r: Option<seq<Bytes32>>)
    ensures r.Some? <==> forall i :: 0 <= i < |texts| ==> ParseHash(texts[i]).Some?
    ensures r.Some? ==> |r.value| == |texts|
    ensures r.Some? ==> forall i :: 0 <= i < |texts| ==> ParseHash(texts[i]) == Some(r.value[i])
  {
    if |texts| == 0 then Some([])
    else match (ParseHash(texts[0]), ParseAll(texts[1..]))
      case (Some(hash), Some(rest)) => Some([hash] + rest)
      case _ => None
  }

  /** The root a textual proof folds to, when the branch is short enough and every hash well formed. */
  function RootOfProof(h: HashFunction, txid: string, proof: seq<string>, index: nat): Option<Bytes32> {
    if |proof| > MAX_MERKLE_DEPTH then None
    else match (ParseHash(txid), ParseAll(proof))
      case (Some(leaf), Some(branch)) => Some(Fold(Pairing(h), leaf, branch, index))
      case _ => None
  }

  /** Folds `txid` up `proof`, parsing each node as it is reached. */
  method ComputeMerkleRoot(h: HashFunction, txid: string, proof: seq<string>, txIndex: u32)
      returns (r: Option<Bytes32>)
    ensures r == RootOfProof(h, txid, proof, txIndex)
  {
    if |proof| > MAX_MERKLE_DEPTH {
      return None;
    }
    var leaf := Hash32DisplayToInternal(txid);
    if leaf.None? {
      return None;
    }
    var cur := leaf.value;
    var idx: nat := txIndex;
    ghost var all := ParseAll(proof);
    for i := 0 to |proof|
      invariant forall j :: 0 <= j < i ==> ParseHash(proof[j]).Some?
      invariant all.Some? ==>
        Fold(Pairing(h), leaf.value, all.value, txIndex) == Fold(Pairing(h), cur, all.value[i..], idx)
    {
      var sib := Hash32DisplayToInternal(proof[i]);
      if sib.None? {
        return None;
      }
      var up := HashSides(h, cur, sib.value, idx);
      if all.Some? {
        FoldFrom(Pairing(h), cur, all.value, i, idx);
      }
      cur, idx := up, idx / 2;
    }
    assert all.value[|proof|..] == [];
    r := Some(cur);
  }

  /** Fills the 64-byte buffer, the current node on the side its index bit says, and hashes it. */
  method HashSides(h: HashFunction, cur: Bytes32, sib: Bytes32, idx: nat) returns (up: Bytes32)
    ensures up == HashPair(Pairing(h), Ordered(cur, sib, idx))
    ensures up == h(if idx % 2 == 0 then cur + sib else sib + cur)
  {
    var buf := new byte[64](_ => 0);
    if idx % 2 == 0 {
      forall k | 0 <= k < 64 {
        buf[k] := if k < 32 then cur[k] else sib[k - 32];
      }
      assert buf[..] == Concat(cur, sib);
    } else {
      forall k | 0 <= k < 64 {
        buf[k] := if k < 32 then sib[k] else cur[k - 32];
      }
      assert buf[..] == Concat(sib, cur);
    }
    up := h(buf[..]);
  }

  /** A proof folds to a root exactly if it has at most 32 nodes and every hash text is well formed; the empty proof
      folds to the transaction itself. */
  lemma FoldsIff(h: HashFunction, txid: string, proof: seq<string>, index: nat)
    ensures RootOfProof(h, txid, proof, index).Some? <==>
      |proof| <= 32 && ParseHash(txid).Some? && forall i :: 0 <= i < |proof| ==> ParseHash(proof[i]).Some?
    ensures |proof| == 0 ==> RootOfProof(h, txid, proof, index) == ParseHash(txid)
  {
  }

  /** One more node in a proof: the root so far and the node are hashed as 64 bytes, the root so far first exactly if
      that bit of the index is 0. */
  lemma {:induction false} ProofOneMore(h: HashFunction, txid: string, proof: seq<string>, node: string, index: nat)
    requires |proof| < 32 && RootOfProof(h, txid, proof, index).Some? && ParseHash(node).Some?
    ensures var below, sibling := RootOfProof(h, txid, proof, index).value, ParseHash(node).value;
      RootOfProof(h, txid, proof + [node], index) ==
        Some(h(if Bit(index, |proof|) == 0 then below + sibling else sibling + below))
  {
    var branch := ParseAll(proof).value;
    ParseOneMore(proof, node);
    FoldedPair(h, ParseHash(txid).value, branch, ParseHash(node).value, index);
  }

  lemma {:induction false} FoldedPair(h: HashFunction, leaf: Bytes32, branch: seq<Bytes32>, last: Bytes32, index: nat)
    ensures var below := Fold(Pairing(h), leaf, branch, index);
      Fold(Pairing(h), leaf, branch + [last], index) == h(if Bit(index, |branch|) == 0 then below + last else last + below)
  {
    FoldOneMore(Pairing(h), leaf, branch, last, index);
    var below := Fold(Pairing(h), leaf, branch, index);
    assert Pairing(h)(below, last) == h(Concat(below, last));
    assert Pairing(h)(last, below) == h(Concat(last, below));
  }

  lemma {:induction false} ParseOneMore(texts: seq<string>, text: string)
    requires ParseAll(texts).Some? && ParseHash(text).Some?
    ensures ParseAll(texts + [text]) == Some(ParseAll(texts).value + [ParseHash(text).value])
  {
    var all := texts + [text];
    assert forall i :: 0 <= i < |texts| ==> all[i] == texts[i];
    assert ParseAll(all).value == ParseAll(texts).value + [ParseHash(text).value];
  }

  lemma PairRoot<T>(p: PairHash<T>, a: T, b: T)
    ensures Root(p, [a, b]) == p(a, b)
  {
    var two := [a, b];
    assert PairAt(two, 0) == (a, b);
    assert NextLevel(p, two) == [p(a, b)];
  }

  /** Small blocks: one transaction is its own root, two are hashed together, and a third is paired with itself. */
  lemma SmallBlocks(h: HashFunction, a: Bytes32, b: Bytes32, c: Bytes32)
    ensures Root(Pairing(h), [a]) == a
    ensures Root(Pairing(h), [a, b]) == h(a + b)
    ensures Root(Pairing(h), [a, b, c]) == h(h(a + b) + h(c + c))
  {
    var p := Pairing(h);
    PairRoot(p, a, b);
    var three := [a, b, c];
    assert PairAt(three, 0) == (a, b) && PairAt(three, 1) == (c, c);
    var next := NextLevel(p, three);
    assert next == [next[0], next[1]];
    PairRoot(p, next[0], next[1]);
    assert p(a, b) == h(Concat(a, b)) && p(c, c) == h(Concat(c, c));
    assert p(next[0], next[1]) == h(Concat(next[0], next[1]));
  }

  /** The proof a node operator hands out for a transaction of a block: its honest branch as text. */
  function HonestProof(h: HashFunction, txids: seq<Bytes32>, index: nat): seq<string>
    requires |txids| > 0
  {
    var branch := Branch(Pairing(h), txids, index);
    seq(|branch|, i requires 0 <= i < |branch| => DisplayHash(branch[i]))
  }

  /** End to end for one transaction: the display id and the honest proof fold to the block's root. */
  lemma {:induction false} HonestProofAccepted(h: HashFunction, txids: seq<Bytes32>, index: nat)
    requires index < |txids| && Depth(|txids|) <= MAX_MERKLE_DEPTH
    ensures RootOfProof(h, DisplayHash(txids[index]), HonestProof(h, txids, index), index)
         == Some(Root(Pairing(h), txids))
  {
    var branch, proof := Branch(Pairing(h), txids, index), HonestProof(h, txids, index);
    forall i | 0 <= i < |branch|
      ensures ParseHash(proof[i]) == Some(branch[i])
    {
      DisplayRoundTrip(branch[i]);
    }
    DisplayRoundTrip(txids[index]);
    assert ParseAll(proof).value == branch;
    LeafOfInside(|txids|, index);
    HonestBranchFolds(Pairing(h), txids, index);
  }

  /** Binding for textual proofs: a proof of the block's depth that folds to its root names, up to
      letter case and surrounding white space, the transaction its index stands for. */
  lemma {:induction false} ProofBindsTransaction(h: HashFunction, txids: seq<Bytes32>, txid: string, proof: seq<string>, index: nat)
    requires |txids| > 0 && |proof| == Depth(|txids|)
    requires RootOfProof(h, txid, proof, index) == Some(Root(Pairing(h), txids))
    requires NoCollision(Pairing(h),
      FoldInputs(Pairing(h), ParseHash(txid).value, ParseAll(proof).value, index), TreeInputs(Pairing(h), txids))
    ensures Lower(Trim(txid)) == DisplayHash(txids[LeafOf(|txids|, index)])
    ensures ParseAll(proof) == Some(Branch(Pairing(h), txids, index))
  {
    FoldBindsLeaf(Pairing(h), txids, ParseHash(txid).value, ParseAll(proof).value, index);
    ParsedDisplay(txid);
  }
}
