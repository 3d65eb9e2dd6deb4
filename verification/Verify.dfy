/**
 The verdict over a proof pack (crates/rfq-consignment/src/verify.rs), and what an accepting verdict means
 end to end when the header source is a table of validated runs.
 */
module Verify {
  import opened Bytes
  import opened Options
  import opened Hex
  import opened MerkleTree
  import opened Merkle
  import opened HeaderChain
  import opened Compact
  import opened Headers

  const DEFAULT_MAX_WITNESSES := 10_000

  datatype WitnessInclusion = WitnessInclusion(blockHash: string, blockHeight: u32, txIndex: u32, merkleProof: seq<string>)

  /** One inclusion proof per witness transaction id. */
  type Pack = map<string, WitnessInclusion>

  /** What the verifier trusts: the answer for a block hash and the height claimed for it. */
  type HeaderSource = (string, u32) -> Option<HeaderInfo>

  datatype RejectReason =
    | MissingAnchor
    | UnknownHeader
    | BadMerkle
    | Unmined(confirmations: u32)
    | Malformed
    | AncestryTooLarge(count: nat, cap: nat)

  datatype Rejection = Rejection(txid: string, reason: RejectReason)

  datatype Verdict = Verdict(allMined: bool, rejected: seq<Rejection>, checked: nat)

  /** The pack proves `txid` against `headers`, at least `k` blocks deep. */
  predicate Proven(h: HashFunction, pack: Pack, headers: HeaderSource, k: nat, txid: string) {
    && txid in pack
    && var a := pack[txid];
       var info := headers(a.blockHash, a.blockHeight);
       && info.Some?
       && RootOfProof(h, txid, a.merkleProof, a.txIndex) == Some(info.value.root)
       && info.value.confirmations >= k
  }

  /** Why `txid` is rejected: the first of the ways, in order, in which it falls short of being proven. */
  function Reason(h: HashFunction, pack: Pack, headers: HeaderSource, k: nat, txid: string): RejectReason
    requires !Proven(h, pack, headers, k, txid)
  {
    if txid !in pack then MissingAnchor
    else
      var a := pack[txid];
      var info := headers(a.blockHash, a.blockHeight);
      if info.None? then UnknownHeader
      else if RootOfProof(h, txid, a.merkleProof, a.txIndex).None? then Malformed
      else if RootOfProof(h, txid, a.merkleProof, a.txIndex) != Some(info.value.root) then BadMerkle
      else Unmined(info.value.confirmations)
  }

  /** The witnesses to check, in order. */
  function ToCheck(witnesses: seq<string>, exempt: set<string>): seq<string> {
    if |witnesses| == 0 then []
    else
      var last := witnesses[|witnesses| - 1];
      ToCheck(witnesses[..|witnesses| - 1], exempt) + if last in exempt then [] else [last]
  }

  /** One rejection for each unproven transaction, in order. */
  function Rejections(h: HashFunction, pack: Pack, headers: HeaderSource, k: nat, txids: seq<string>): seq<Rejection> {
    if |txids| == 0 then []
    else
      var last := txids[|txids| - 1];
      Rejections(h, pack, headers, k, txids[..|txids| - 1])
        + if Proven(h, pack, headers, k, last) then [] else [Rejection(last, Reason(h, pack, headers, k, last))]
  }

  lemma {:induction false} RejectionsNext(h: HashFunction, pack: Pack, headers: HeaderSource, k: nat, txids: seq<string>, txid: string)
    ensures Rejections(h, pack, headers, k, txids + [txid])
         == if Proven(h, pack, headers, k, txid) then Rejections(h, pack, headers, k, txids)
            else Rejections(h, pack, headers, k, txids) + [Rejection(txid, Reason(h, pack, headers, k, txid))]
  {
    assert (txids + [txid])[..|txids|] == txids;
  }

  lemma {:induction false} ToCheckNext(witnesses: seq<string>, exempt: set<string>, i: nat)
    requires i < |witnesses|
    ensures ToCheck(witnesses[..i + 1], exempt)
         == if witnesses[i] in exempt then ToCheck(witnesses[..i], exempt)
            else ToCheck(witnesses[..i], exempt) + [witnesses[i]]
  {
    assert witnesses[..i + 1][..i] == witnesses[..i];
  }

  /** One entry is checked for each position that is not exempt. */
  lemma {:induction false} ToCheckCount(witnesses: seq<string>, exempt: set<string>, n: nat)
    requires n <= |witnesses|
    ensures |ToCheck(witnesses[..n], exempt)| == |set i | 0 <= i < n && witnesses[i] !in exempt|
  {
    if n > 0 {
      ToCheckCount(witnesses, exempt, n - 1);
      ToCheckNext(witnesses, exempt, n - 1);
      OneMoreToCheck(witnesses, exempt, n - 1);
    }
  }

  lemma OneMoreToCheck(witnesses: seq<string>, exempt: set<string>, n: nat)
    requires n < |witnesses|
    ensures |set i | 0 <= i < n + 1 && witnesses[i] !in exempt|
      == |set i | 0 <= i < n && witnesses[i] !in exempt| + if witnesses[n] in exempt then 0 else 1
  {
    var before := set i | 0 <= i < n && witnesses[i] !in exempt;
    var after := set i | 0 <= i < n + 1 && witnesses[i] !in exempt;
    assert after == if witnesses[n] in exempt then before else before + {n};
  }

  /** What is rejected: witnesses to check that are not proven, each for its own reason. */
  lemma {:induction false} RejectionsMeaning(h: HashFunction, pack: Pack, headers: HeaderSource, k: nat,
                                             txids: seq<string>, x: Rejection)
    ensures x in Rejections(h, pack, headers, k, txids) <==>
      && x.txid in txids && !Proven(h, pack, headers, k, x.txid)
      && x.reason == Reason(h, pack, headers, k, x.txid)
  {
    if |txids| > 0 {
      RejectionsMeaning(h, pack, headers, k, txids[..|txids| - 1], x);
      assert x.txid in txids <==> x.txid in txids[..|txids| - 1] || x.txid == txids[|txids| - 1];
    }
  }

  lemma {:induction false} ToCheckMeaning(witnesses: seq<string>, exempt: set<string>, txid: string)
    ensures txid in ToCheck(witnesses, exempt) <==> txid in witnesses && txid !in exempt
  {
    if |witnesses| > 0 {
      ToCheckMeaning(witnesses[..|witnesses| - 1], exempt, txid);
      assert txid in witnesses <==> txid in witnesses[..|witnesses| - 1] || txid == witnesses[|witnesses| - 1];
    }
  }

  /** Nothing is rejected exactly if every witness to check is proven. */
  lemma {:induction false} NoRejections(h: HashFunction, pack: Pack, headers: HeaderSource, k: nat,
                                        witnesses: seq<string>, exempt: set<string>)
    ensures Rejections(h, pack, headers, k, ToCheck(witnesses, exempt)) == [] <==>
      forall i :: 0 <= i < |witnesses| ==> witnesses[i] in exempt || Proven(h, pack, headers, k, witnesses[i])
  {
    var toCheck := ToCheck(witnesses, exempt);
    if i :| 0 <= i < |witnesses| && witnesses[i] !in exempt && !Proven(h, pack, headers, k, witnesses[i]) {
      ToCheckMeaning(witnesses, exempt, witnesses[i]);
      RejectionsMeaning(h, pack, headers, k, toCheck, Rejection(witnesses[i], Reason(h, pack, headers, k, witnesses[i])));
    } else if Rejections(h, pack, headers, k, toCheck) != [] {
      var x := Rejections(h, pack, headers, k, toCheck)[0];
      RejectionsMeaning(h, pack, headers, k, toCheck, x);
      ToCheckMeaning(witnesses, exempt, x.txid);
    }
  }

  /** Every witness but the exempt ones is proven at least `minConfs` and at least one block deep, and there
      are not too many of them. */
  ghost predicate Accepted(h: HashFunction, witnesses: seq<string>, exempt: set<string>, pack: Pack,
                           headers: HeaderSource, minConfs: u32)
  {
    && |ToCheck(witnesses, exempt)| <= DEFAULT_MAX_WITNESSES
    && forall i :: 0 <= i < |witnesses| ==>
         witnesses[i] in exempt || Proven(h, pack, headers, Threshold(minConfs), witnesses[i])
  }

  /** The depth asked for: at least one block, whatever the caller asks. */
  function Threshold(minConfs: u32): (k: nat)
    ensures k >= minConfs && k >= 1
    ensures k == minConfs || k == 1
  {
    if minConfs < 1 then 1 else minConfs
  }

  method CountToCheck(witnesses: seq<string>, exempt: set<string>) returns (count: nat)
    ensures count == |ToCheck(witnesses, exempt)|
    ensures count == |set i | 0 <= i < |witnesses| && witnesses[i] !in exempt|
  {
    ToCheckCount(witnesses, exempt, |witnesses|);
    assert witnesses[..|witnesses|] == witnesses;
    count := 0;
    for i := 0 to |witnesses|
      invariant count == |ToCheck(witnesses[..i], exempt)|
    {
      ToCheckNext(witnesses, exempt, i);
      if witnesses[i] !in exempt {
        count := count + 1;
      }
    }
    assert witnesses[..|witnesses|] == witnesses;
  }

  method VerifyPack(h: HashFunction, witnesses: seq<string>, exempt: set<string>, pack: Pack,
                    headers: HeaderSource, minConfs: u32) returns (v: Verdict)
    ensures v.allMined <==> Accepted(h, witnesses, exempt, pack, headers, minConfs)
    ensures v.checked == |ToCheck(witnesses, exempt)|
    ensures v.rejected ==
      if v.checked > DEFAULT_MAX_WITNESSES then [Rejection("<ancestry>", AncestryTooLarge(v.checked, DEFAULT_MAX_WITNESSES))]
      else Rejections(h, pack, headers, Threshold(minConfs), ToCheck(witnesses, exempt))
    ensures v.checked == |set i | 0 <= i < |witnesses| && witnesses[i] !in exempt|
    ensures v.allMined <==>
      && v.checked <= 10_000
      && forall i :: 0 <= i < |witnesses| && witnesses[i] !in exempt ==>
        && witnesses[i] in pack
        && var a := pack[witnesses[i]];
           var info := headers(a.blockHash, a.blockHeight);
           && info.Some?
           && RootOfProof(h, witnesses[i], a.merkleProof, a.txIndex) == Some(info.value.root)
           && info.value.confirmations >= minConfs && info.value.confirmations >= 1
    ensures v.checked > 10_000 ==> v.rejected == [Rejection("<ancestry>", AncestryTooLarge(v.checked, 10_000))]
    ensures v.checked <= 10_000 ==> forall x :: x in v.rejected ==> x.txid in witnesses && x.txid !in exempt
  {
    var k := if minConfs < 1 then 1 else minConfs;
    var rejected: seq<Rejection> := [];
    var checked: nat := 0;
    var toCheck := CountToCheck(witnesses, exempt);
    if toCheck > DEFAULT_MAX_WITNESSES {
      return Verdict(false, [Rejection("<ancestry>", AncestryTooLarge(toCheck, DEFAULT_MAX_WITNESSES))], toCheck);
    }
    for i := 0 to |witnesses|
      invariant checked == |ToCheck(witnesses[..i], exempt)|
      invariant rejected == Rejections(h, pack, headers, k, ToCheck(witnesses[..i], exempt))
    {
      ToCheckNext(witnesses, exempt, i);
      var txid := witnesses[i];
      if txid in exempt {
        continue;
      }
      RejectionsNext(h, pack, headers, k, ToCheck(witnesses[..i], exempt), txid);
      checked := checked + 1;
      var reason := CheckWitness(h, pack, headers, k, txid);
      if reason.Some? {
        rejected := rejected + [Rejection(txid, reason.value)];
      }
    }
    assert witnesses[..|witnesses|] == witnesses;
    NoRejections(h, pack, headers, k, witnesses, exempt);
    forall x | x in rejected
      ensures x.txid in witnesses && x.txid !in exempt
    {
      RejectionsMeaning(h, pack, headers, k, ToCheck(witnesses, exempt), x);
      ToCheckMeaning(witnesses, exempt, x.txid);
    }
    v := Verdict(|rejected| == 0, rejected, checked);
  }

  /** The loop body of the verdict: anchor, header, fold, root, depth, in this order. */
  method CheckWitness(h: HashFunction, pack: Pack, headers: HeaderSource, k: u32, txid: string)
      returns (reason: Option<RejectReason>)
    ensures reason.None? <==> Proven(h, pack, headers, k, txid)
    ensures reason.Some? ==> reason.value == Reason(h, pack, headers, k, txid)
    ensures reason == Some(MissingAnchor) <==> txid !in pack
    ensures txid in pack ==>
      var a := pack[txid];
      var info := headers(a.blockHash, a.blockHeight);
      var root := RootOfProof(h, txid, a.merkleProof, a.txIndex);
      && (reason == Some(UnknownHeader) <==> info.None?)
      && (reason == Some(Malformed) <==> info.Some? && root.None?)
      && (reason == Some(BadMerkle) <==> info.Some? && root.Some? && root.value != info.value.root)
      && (info.Some? && root == Some(info.value.root) ==>
        reason == if info.value.confirmations < k then Some(Unmined(info.value.confirmations)) else None)
  {
    if txid !in pack {
      return Some(MissingAnchor);
    }
    var anchor := pack[txid];
    var info := headers(anchor.blockHash, anchor.blockHeight);
    if info.None? {
      return Some(UnknownHeader);
    }
    var computed := ComputeMerkleRoot(h, txid, anchor.merkleProof, anchor.txIndex);
    if computed.None? {
      return Some(Malformed);
    }
    if computed.value != info.value.root {
      return Some(BadMerkle);
    }
    if info.value.confirmations < k {
      return Some(Unmined(info.value.confirmations));
    }
    reason := None;
  }

  // End to end, over a table of validated runs.

  function SourceOf(byHash: Table): HeaderSource {
    (blockHash: string, height: u32) => CheckpointHeaderSource(byHash).HeaderAt(blockHash, height)
  }

  /** The block that vouches for a pack's claim: position `i` of run `j`, the last recorded occurrence of the
      claimed hash, at the claimed height, its own root the fold of the proof, and at least `k` blocks of its
      own run from it to the top. */
  ghost predicate MinedIn(h: HashFunction, network: Network, runs: seq<Run>, a: WitnessInclusion, txid: string,
                          k: nat, j: int, i: int)
  {
    && 0 <= j < |runs| && ValidRun(network, runs[j])
    && 0 <= i < |runs[j].blocks|
    && j == LastRun(runs, Lower(a.blockHash)) && i == LastIn(runs[j], |runs[j].blocks|, Lower(a.blockHash))
    && runs[j].checkpoint.height + i == a.blockHeight
    && RootOfProof(h, txid, a.merkleProof, a.txIndex) == Some(runs[j].blocks[i].root)
    && |runs[j].blocks| - i >= k
  }

  ghost predicate Mined(h: HashFunction, network: Network, runs: seq<Run>, pack: Pack, k: nat, txid: string) {
    txid in pack && exists j, i :: MinedIn(h, network, runs, pack[txid], txid, k, j, i)
  }

  /** A claim is proven against the table of validated runs exactly if such a block exists. */
  lemma {:induction false} ProvenMeansMined(h: HashFunction, network: Network, runs: seq<Run>, pack: Pack, k: nat, txid: string)
    requires AllValid(network, runs)
    ensures Proven(h, pack, SourceOf(RecordedAll(network, runs)), k, txid) <==> Mined(h, network, runs, pack, k, txid)
  {
    if txid in pack {
      var a := pack[txid];
      HeaderAtMeaning(network, runs, a.blockHash, a.blockHeight);
      var j := LastRun(runs, Lower(a.blockHash));
      if j >= 0 {
        var i := LastIn(runs[j], |runs[j].blocks|, Lower(a.blockHash));
        assert Proven(h, pack, SourceOf(RecordedAll(network, runs)), k, txid) ==>
          MinedIn(h, network, runs, a, txid, k, j, i);
      }
    }
  }

  /** Soundness, and the converse: an accepting verdict over validated runs means that every witness but the
      exempt ones folds to the root of a block at its claimed height in an anchored, linked (on mainnet also
      work- and difficulty-checked) run at least max(minConfs, 1) blocks below that run's own top. */
  lemma {:induction false} SpvSoundAndComplete(h: HashFunction, network: Network, runs: seq<Run>, witnesses: seq<string>,
                                              exempt: set<string>, pack: Pack, minConfs: u32)
    requires AllValid(network, runs)
    requires |ToCheck(witnesses, exempt)| <= DEFAULT_MAX_WITNESSES
    ensures Accepted(h, witnesses, exempt, pack, SourceOf(RecordedAll(network, runs)), minConfs) <==>
      forall w :: 0 <= w < |witnesses| ==>
        witnesses[w] in exempt || Mined(h, network, runs, pack, Threshold(minConfs), witnesses[w])
  {
    forall w | 0 <= w < |witnesses|
      ensures Proven(h, pack, SourceOf(RecordedAll(network, runs)), Threshold(minConfs), witnesses[w])
        <==> Mined(h, network, runs, pack, Threshold(minConfs), witnesses[w])
    {
      ProvenMeansMined(h, network, runs, pack, Threshold(minConfs), witnesses[w]);
    }
  }

  /** Header `i` of the segment vouches for the claim, in the bytes of its headers: all are 80 bytes, the first
      hashes to the checkpoint and each other holds the hash of the one before it in bytes 4 to 36; header `i` has
      the claimed hash and height, the proof folds to its bytes 36 to 68, and it is at least `minConfs`, and at
      least 1, headers deep. On mainnet every hash is within the target of its header's bytes 72 to 76. */
  ghost predicate VouchedBy(h: HashFunction, network: Network, s: Segment, i: int, a: WitnessInclusion, txid: string,
                            minConfs: u32)
  {
    && 0 <= i < |s.headers|
    && (forall m :: 0 <= m < |s.headers| ==> |s.headers[m]| == 80)
    && DisplayHash(h(s.headers[0])) == Lower(s.checkpoint.blockHash)
    && (forall m :: 0 < m < |s.headers| ==> s.headers[m][4..36] == h(s.headers[m - 1]))
    && DisplayHash(h(s.headers[i])) == Lower(a.blockHash)
    && s.checkpoint.height + i == a.blockHeight
    && RootOfProof(h, txid, a.merkleProof, a.txIndex) == Some(s.headers[i][36..68])
    && |s.headers| - i >= minConfs && |s.headers| - i >= 1
    && (network == Mainnet ==> forall m :: 0 <= m < |s.headers| ==>
      Value(Reverse(h(s.headers[m]))) <= DecodeCompact(BitsOf(s.headers[m])))
  }

  /** From raw headers to the verdict: with the source built from segments that all validate, a witness the verdict
      accepts is exempt or vouched for by a header of some segment. */
  lemma {:induction false} SpvSound(h: HashFunction, network: Network, segments: seq<Segment>, witnesses: seq<string>,
                                   exempt: set<string>, pack: Pack, minConfs: u32, w: nat)
    requires ValidSegments(h, network, segments) && w < |witnesses|
    requires Accepted(h, witnesses, exempt, pack,
      SourceOf(RecordedAll(network, ParseSegments(h, segments).value)), minConfs)
    ensures witnesses[w] in exempt || (witnesses[w] in pack && exists j, i ::
      0 <= j < |segments| && VouchedBy(h, network, segments[j], i, pack[witnesses[w]], witnesses[w], minConfs))
  {
    var runs := ParseSegments(h, segments).value;
    if witnesses[w] !in exempt {
      ProvenMeansMined(h, network, runs, pack, Threshold(minConfs), witnesses[w]);
      var j, i :| MinedIn(h, network, runs, pack[witnesses[w]], witnesses[w], Threshold(minConfs), j, i);
      MinedByRaw(h, network, segments, pack[witnesses[w]], witnesses[w], minConfs, j, i);
    }
  }

  lemma {:induction false} MinedByRaw(h: HashFunction, network: Network, segments: seq<Segment>, a: WitnessInclusion, txid: string,
                                     minConfs: u32, j: int, i: int)
    requires ValidSegments(h, network, segments)
    requires MinedIn(h, network, ParseSegments(h, segments).value, a, txid, Threshold(minConfs), j, i)
    ensures 0 <= j < |segments| && VouchedBy(h, network, segments[j], i, a, txid, minConfs)
  {
    var s, r := segments[j], ParseSegments(h, segments).value[j];
    ParsedSegment(h, segments, j);
    RawRun(h, network, s);
    ParsedFields(h, s, r);
    assert BlockHash(r.blocks[i]) == Lower(a.blockHash);
  }

  /** What soundness says about the block's contents: if the vouching block's root is that of the
      transactions `txids`, and the proof has their tree's depth, then the witness is the transaction its
      index names, unless the hash collides on strings actually hashed. */
  lemma {:induction false} MinedTransaction(h: HashFunction, network: Network, runs: seq<Run>, a: WitnessInclusion, txid: string,
                                           k: nat, j: int, i: int, txids: seq<Bytes32>)
    requires MinedIn(h, network, runs, a, txid, k, j, i)
    requires |txids| > 0 && runs[j].blocks[i].root == Root(Pairing(h), txids)
    requires |a.merkleProof| == Depth(|txids|)
    requires NoCollision(Pairing(h),
      FoldInputs(Pairing(h), ParseHash(txid).value, ParseAll(a.merkleProof).value, a.txIndex), TreeInputs(Pairing(h), txids))
    ensures Lower(Trim(txid)) == DisplayHash(txids[LeafOf(|txids|, a.txIndex)])
  {
    ProofBindsTransaction(h, txids, txid, a.merkleProof, a.txIndex);
  }

  /** An honest pack entry is accepted: the block's own hash and height, the transaction's index, and its
      honest branch, for a block that is the last recorded of its hash and deep enough in its run. */
  lemma {:induction false} HonestEntryProven(h: HashFunction, network: Network, runs: seq<Run>, pack: Pack, k: nat, j: nat, i: nat,
                                            txids: seq<Bytes32>, index: u32)
    requires AllValid(network, runs)
    requires j < |runs| && i < |runs[j].blocks| && |runs[j].blocks| - i >= k
    requires j == LastRun(runs, BlockHash(runs[j].blocks[i]))
    requires i == LastIn(runs[j], |runs[j].blocks|, BlockHash(runs[j].blocks[i]))
    requires index < |txids| && Depth(|txids|) <= MAX_MERKLE_DEPTH
    requires runs[j].blocks[i].root == Root(Pairing(h), txids)
    requires DisplayHash(txids[index]) in pack
    requires runs[j].checkpoint.height + i < 0x1_0000_0000
    requires pack[DisplayHash(txids[index])] ==
      WitnessInclusion(BlockHash(runs[j].blocks[i]), runs[j].checkpoint.height + i, index, HonestProof(h, txids, index))
    ensures Proven(h, pack, SourceOf(RecordedAll(network, runs)), k, DisplayHash(txids[index]))
  {
    var txid := DisplayHash(txids[index]);
    DisplayRoundTrip(runs[j].blocks[i].hash);
    AllValidMember(network, runs, j);
    HonestProofAccepted(h, txids, index);
    assert MinedIn(h, network, runs, pack[txid], txid, k, j, i);
    ProvenMeansMined(h, network, runs, pack, k, txid);
  }
}
