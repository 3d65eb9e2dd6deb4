/**
 Checkpoint-anchored header runs (crates/rfq-consignment/src/headers.rs): when a run is valid, what a
 lookup in a table of runs means, how difficulty behaves along a whole run, and how runs extend one
 another. `Headers` holds the programs that check raw headers against this.
 */
module HeaderChain {
  import opened Bytes
  import opened Options
  import opened Hex
  import opened Compact
  import opened Difficulty

  datatype Network = Mainnet | Testnet3 | Testnet4 | Signet | Regtest {
    /** Only mainnet headers carry checkable proof of work. */
    predicate ChecksPow() { Mainnet? }
  }

  /** The parts of a block header that matter here, with the block's own hash. */
  datatype Block = Block(hash: Bytes32, prev: Bytes32, root: Bytes32, time: u32, bits: u32)

  datatype Checkpoint = Checkpoint(height: u32, blockHash: string)

  /** A run of blocks with the checkpoint its first block must hash to. */
  datatype Run = Run(checkpoint: Checkpoint, blocks: seq<Block>)

  /** What the table holds for a block: its Merkle root, its height and the top height of its run. */
  datatype Entry = Entry(root: Bytes32, height: u32, runTop: u32)

  type Table = map<string, Entry>

  datatype RunError =
    | NoHeaders
    | BadLength
    | CheckpointMismatch
    | NotOnBoundary
    | BrokenLinkage(index: nat)
    | FailsPow(index: nat)
    | WrongBits(index: nat)

  /** The block hash as text, the key of the table. */
  function BlockHash(b: Block): string {
    DisplayHash(b.hash)
  }

  /** The block hash, read as a number, is within the block's own target. */
  ghost predicate MeetsTarget(b: Block) {
    Value(Reverse(b.hash)) <= DecodeCompact(b.bits)
  }

  /** The run starts at its checkpoint, on a difficulty boundary where the network checks work. */
  ghost predicate Anchored(network: Network, r: Run) {
    && |r.blocks| > 0
    && BlockHash(r.blocks[0]) == Lower(r.checkpoint.blockHash)
    && (network.ChecksPow() ==> r.checkpoint.height % RETARGET_INTERVAL == 0)
  }

  predicate OnBoundary(height: nat) {
    height % RETARGET_INTERVAL == 0
  }

  ghost predicate Linked(r: Run, i: nat)
    requires i < |r.blocks|
  {
    i == 0 || r.blocks[i].prev == r.blocks[i - 1].hash
  }

  /** Block `i` carries the compact target it must: the retarget of the epoch before it on a boundary,
      otherwise that of the block before it. */
  ghost predicate BitsCorrect(r: Run, i: nat)
    requires i < |r.blocks|
  {
    i == 0 || r.blocks[i].bits ==
      if OnBoundary(r.checkpoint.height + i) && i >= RETARGET_INTERVAL then
        RetargetBits(r.blocks[i - 1].bits, r.blocks[i - 1].time, r.blocks[i - RETARGET_INTERVAL].time)
      else r.blocks[i - 1].bits
  }

  /** An aligned run never reaches a boundary before it is a whole interval long. */
  lemma LookbackInRun(height: nat, i: nat)
    requires OnBoundary(height) && 0 < i
    ensures OnBoundary(height + i) <==> OnBoundary(i)
    ensures OnBoundary(i) ==> i >= RETARGET_INTERVAL
  {
  }

  /** The first check block `i` fails, in the order the checks are made. */
  ghost function Fault(network: Network, r: Run, i: nat): Option<RunError>
    requires i < |r.blocks|
  {
    if !Linked(r, i) then Some(BrokenLinkage(i))
    else if !network.ChecksPow() then None
    else if !MeetsTarget(r.blocks[i]) then Some(FailsPow(i))
    else if !BitsCorrect(r, i) then Some(WrongBits(i))
    else None
  }

  /** Which check a block fails, if any. */
  lemma FaultMeaning(network: Network, r: Run, i: nat)
    requires i < |r.blocks|
    ensures Fault(network, r, i) == Some(BrokenLinkage(i)) <==> i > 0 && r.blocks[i].prev != r.blocks[i - 1].hash
    ensures Fault(network, r, i) == Some(FailsPow(i)) <==>
      && (i > 0 ==> r.blocks[i].prev == r.blocks[i - 1].hash)
      && network == Mainnet && Value(Reverse(r.blocks[i].hash)) > DecodeCompact(r.blocks[i].bits)
    ensures Fault(network, r, i) == Some(WrongBits(i)) <==>
      && network == Mainnet && i > 0 && r.blocks[i].prev == r.blocks[i - 1].hash
      && Value(Reverse(r.blocks[i].hash)) <= DecodeCompact(r.blocks[i].bits)
      && r.blocks[i].bits !=
        if (r.checkpoint.height + i) % 2016 == 0 && i >= 2016 then
          RetargetBits(r.blocks[i - 1].bits, r.blocks[i - 1].time, r.blocks[i - 2016].time)
        else r.blocks[i - 1].bits
    ensures Fault(network, r, i).Some? ==> Fault(network, r, i).value in {BrokenLinkage(i), FailsPow(i), WrongBits(i)}
  {
  }

  /** How many of the first `n` blocks pass before one fails. */
  ghost function FaultFree(network: Network, r: Run, n: nat): (k: nat)
    requires n <= |r.blocks|
    ensures k <= n
    ensures k < n ==> Fault(network, r, k).Some?
  {
    if n == 0 then 0
    else
      var k := FaultFree(network, r, n - 1);
      if k == n - 1 && Fault(network, r, n - 1).None? then n else k
  }

  ghost predicate ValidRun(network: Network, r: Run) {
    Anchored(network, r) && FaultFree(network, r, |r.blocks|) == |r.blocks|
  }

  lemma {:induction false} FaultFreeMeaning(network: Network, r: Run, n: nat, i: nat)
    requires i < n <= |r.blocks|
    ensures i < FaultFree(network, r, n) ==> Fault(network, r, i).None?
    ensures FaultFree(network, r, i) == i && Fault(network, r, i).Some? ==> FaultFree(network, r, n) == i
  {
    if i < n - 1 {
      FaultFreeMeaning(network, r, n - 1, i);
    }
  }

  lemma {:induction false} NoFaults(network: Network, r: Run, n: nat)
    requires n <= |r.blocks|
    requires forall i :: 0 <= i < n ==> Fault(network, r, i).None?
    ensures FaultFree(network, r, n) == n
  {
    if n > 0 {
      NoFaults(network, r, n - 1);
    }
  }

  /** A valid run is exactly one whose first block hashes to the checkpoint and each of whose other blocks names
      the hash of the block before it, and which on mainnet starts on a multiple of 2016, has every hash within
      the target its own block states, and changes the compact target only at multiples of 2016, there to the
      retarget of the 2016 blocks before. */
  lemma ValidRunMeaning(network: Network, r: Run)
    ensures ValidRun(network, r) <==>
      && |r.blocks| > 0
      && DisplayHash(r.blocks[0].hash) == Lower(r.checkpoint.blockHash)
      && (forall i :: 0 < i < |r.blocks| ==> r.blocks[i].prev == r.blocks[i - 1].hash)
      && (network == Mainnet ==>
        && r.checkpoint.height % 2016 == 0
        && (forall i :: 0 <= i < |r.blocks| ==> Value(Reverse(r.blocks[i].hash)) <= DecodeCompact(r.blocks[i].bits))
        && (forall i :: 0 < i < |r.blocks| && !((r.checkpoint.height + i) % 2016 == 0 && i >= 2016) ==>
          r.blocks[i].bits == r.blocks[i - 1].bits)
        && (forall i :: 2016 <= i < |r.blocks| && (r.checkpoint.height + i) % 2016 == 0 ==>
          r.blocks[i].bits == RetargetBits(r.blocks[i - 1].bits, r.blocks[i - 1].time, r.blocks[i - 2016].time)))
  {
    ValidRunChecks(network, r);
    forall i | 0 <= i < |r.blocks|
      ensures Linked(r, i) <==> i == 0 || r.blocks[i].prev == r.blocks[i - 1].hash
      ensures MeetsTarget(r.blocks[i]) <==> Value(Reverse(r.blocks[i].hash)) <= DecodeCompact(r.blocks[i].bits)
      ensures BitsCorrect(r, i) <==>
        && (i > 0 && !((r.checkpoint.height + i) % 2016 == 0 && i >= 2016) ==> r.blocks[i].bits == r.blocks[i - 1].bits)
        && (i >= 2016 && (r.checkpoint.height + i) % 2016 == 0 ==>
          r.blocks[i].bits == RetargetBits(r.blocks[i - 1].bits, r.blocks[i - 1].time, r.blocks[i - 2016].time))
    {
      ChecksMeaning(r, i);
    }
  }

  lemma ChecksMeaning(r: Run, i: nat)
    requires i < |r.blocks|
    ensures Linked(r, i) <==> i == 0 || r.blocks[i].prev == r.blocks[i - 1].hash
    ensures MeetsTarget(r.blocks[i]) <==> Value(Reverse(r.blocks[i].hash)) <= DecodeCompact(r.blocks[i].bits)
    ensures BitsCorrect(r, i) <==>
      && (i > 0 && !((r.checkpoint.height + i) % 2016 == 0 && i >= 2016) ==> r.blocks[i].bits == r.blocks[i - 1].bits)
      && (i >= 2016 && (r.checkpoint.height + i) % 2016 == 0 ==>
        r.blocks[i].bits == RetargetBits(r.blocks[i - 1].bits, r.blocks[i - 1].time, r.blocks[i - 2016].time))
  {
  }

  /** A run is valid exactly if it is anchored and no block fails a check. */
  lemma ValidRunChecks(network: Network, r: Run)
    ensures ValidRun(network, r) <==>
      && Anchored(network, r)
      && (forall i :: 0 <= i < |r.blocks| ==> Linked(r, i))
      && (network.ChecksPow() ==> forall i :: 0 <= i < |r.blocks| ==> MeetsTarget(r.blocks[i]) && BitsCorrect(r, i))
  {
    if ValidRun(network, r) {
      forall i | 0 <= i < |r.blocks|
        ensures Linked(r, i) && (network.ChecksPow() ==> MeetsTarget(r.blocks[i]) && BitsCorrect(r, i))
      {
        FaultFreeMeaning(network, r, |r.blocks|, i);
      }
    } else if forall i :: 0 <= i < |r.blocks| ==> Fault(network, r, i).None? {
      NoFaults(network, r, |r.blocks|);
    }
  }

  // The lookup table.

  function EntryAt(r: Run, i: nat): Entry
    requires i < |r.blocks| && r.checkpoint.height + |r.blocks| < 0x1_0000_0000
  {
    Entry(r.blocks[i].root, r.checkpoint.height + i, r.checkpoint.height + |r.blocks| - 1)
  }

  /** Heights of the run fit 32 bits. */
  ghost predicate Fits(r: Run) {
    r.checkpoint.height + |r.blocks| < 0x1_0000_0000
  }

  /** The table after the first `n` blocks of a run are recorded. */
  ghost function Recorded(table: Table, r: Run, n: nat): Table
    requires Fits(r) && n <= |r.blocks|
  {
    if n == 0 then table else Recorded(table, r, n - 1)[BlockHash(r.blocks[n - 1]) := EntryAt(r, n - 1)]
  }

  /** Every run is valid and fits. */
  ghost predicate AllValid(network: Network, runs: seq<Run>) {
    |runs| != 0 ==>
      && AllValid(network, runs[..|runs| - 1])
      && Fits(runs[|runs| - 1])
      && ValidRun(network, runs[|runs| - 1])
  }

  /** The table after every run is recorded in order. */
  ghost function RecordedAll(network: Network, runs: seq<Run>): Table
    requires AllValid(network, runs)
  {
    if |runs| == 0 then map[]
    else
      var last := runs[|runs| - 1];
      Recorded(RecordedAll(network, runs[..|runs| - 1]), last, |last.blocks|)
  }

  /** One more run: valid exactly if the ones before and the run are, and recorded on top of them. */
  lemma {:induction false} AllValidNext(network: Network, runs: seq<Run>, r: Run)
    ensures AllValid(network, runs + [r]) <==> AllValid(network, runs) && Fits(r) && ValidRun(network, r)
    ensures AllValid(network, runs + [r]) ==>
      RecordedAll(network, runs + [r]) == Recorded(RecordedAll(network, runs), r, |r.blocks|)
  {
    assert (runs + [r])[..|runs|] == runs;
  }

  lemma {:induction false} AllValidMember(network: Network, runs: seq<Run>, j: nat)
    requires AllValid(network, runs) && j < |runs|
    ensures Fits(runs[j]) && ValidRun(network, runs[j])
  {
    if j < |runs| - 1 {
      AllValidMember(network, runs[..|runs| - 1], j);
    }
  }

  /** The last of the first `n` blocks whose hash text is `key`, or -1. */
  ghost function LastIn(r: Run, n: nat, key: string): (i: int)
    requires n <= |r.blocks|
    ensures -1 <= i < n
    ensures i >= 0 ==> BlockHash(r.blocks[i]) == key
    ensures forall j :: i < j < n ==> BlockHash(r.blocks[j]) != key
  {
    if n == 0 then -1
    else if BlockHash(r.blocks[n - 1]) == key then n - 1
    else LastIn(r, n - 1, key)
  }

  /** The last run that holds a block whose hash text is `key`, or -1. */
  ghost function LastRun(runs: seq<Run>, key: string): (j: int)
    ensures -1 <= j < |runs|
  {
    if |runs| == 0 then -1
    else
      var last := runs[|runs| - 1];
      if LastIn(last, |last.blocks|, key) >= 0 then |runs| - 1 else LastRun(runs[..|runs| - 1], key)
  }

  /** The run is the last that holds the key: none after it does. */
  lemma {:induction false} LastRunMeaning(runs: seq<Run>, key: string)
    ensures var j := LastRun(runs, key);
      && (j >= 0 ==> exists i :: 0 <= i < |runs[j].blocks| && DisplayHash(runs[j].blocks[i].hash) == key)
      && (forall m, i :: j < m < |runs| && 0 <= i < |runs[m].blocks| ==> DisplayHash(runs[m].blocks[i].hash) != key)
  {
    if |runs| > 0 {
      var last := runs[|runs| - 1];
      LastRunMeaning(runs[..|runs| - 1], key);
      assert LastIn(last, |last.blocks|, key) >= 0 ==> BlockHash(last.blocks[LastIn(last, |last.blocks|, key)]) == key;
      forall i | 0 <= i < |last.blocks| && LastIn(last, |last.blocks|, key) < 0
        ensures DisplayHash(last.blocks[i].hash) != key
      {
        assert BlockHash(last.blocks[i]) != key;
      }
    }
  }

  lemma {:induction false} RecordedLookup(table: Table, r: Run, n: nat, key: string)
    requires Fits(r) && n <= |r.blocks|
    ensures var i, recorded := LastIn(r, n, key), Recorded(table, r, n);
      if i >= 0 then key in recorded && recorded[key] == EntryAt(r, i)
      else (key in recorded <==> key in table) && (key in table ==> recorded[key] == table[key])
  {
    if n > 0 {
      RecordedLookup(table, r, n - 1, key);
    }
  }

  /** The table of all runs holds, for a key, the entry of its last occurrence. */
  lemma {:induction false} RecordedAllLookup(network: Network, runs: seq<Run>, key: string)
    requires AllValid(network, runs)
    ensures var table, j := RecordedAll(network, runs), LastRun(runs, key);
      if j < 0 then key !in table
      else
        && Fits(runs[j]) && ValidRun(network, runs[j])
        && var i := LastIn(runs[j], |runs[j].blocks|, key);
           i >= 0 && key in table && table[key] == EntryAt(runs[j], i)
  {
    if |runs| > 0 {
      var last, before := runs[|runs| - 1], runs[..|runs| - 1];
      RecordedAllLookup(network, before, key);
      RecordedLookup(RecordedAll(network, before), last, |last.blocks|, key);
    }
  }

  datatype HeaderInfo = HeaderInfo(root: Bytes32, confirmations: u32)

  datatype CheckpointHeaderSource = CheckpointHeaderSource(byHash: Table) {
    /** What the source vouches for about a block, if the height claimed for it is its own. */
    function HeaderAt(blockHash: string, claimedHeight: u32): Option<HeaderInfo> {
      var key := Lower(blockHash);
      if key !in byHash || byHash[key].height != claimedHeight then None
      else
        Some(HeaderInfo(byHash[key].root, Confirmations(byHash[key])))
    }
  }

  /** Blocks from this one to its run's top; 32-bit addition wraps, subtraction stops at zero. */
  function Confirmations(e: Entry): u32 {
    var above := if e.runTop == 0xFFFF_FFFF then 0 else e.runTop + 1;
    if above < e.height then 0 else above - e.height
  }

  /** Block `i` of run `j` has this hash and this height, its run is valid, and `info` gives its own root
      and the number of blocks from it to the top of its own run. */
  ghost predicate Vouches(network: Network, runs: seq<Run>, blockHash: string, height: u32, info: HeaderInfo,
                          j: int, i: int)
  {
    && 0 <= j < |runs|
    && ValidRun(network, runs[j])
    && 0 <= i < |runs[j].blocks|
    && BlockHash(runs[j].blocks[i]) == Lower(blockHash)
    && runs[j].checkpoint.height + i == height
    && info.root == runs[j].blocks[i].root
    && info.confirmations == |runs[j].blocks| - i
  }

  /** Exactly what a source built from runs answers. With overlapping runs it is the last inserted
      occurrence that speaks, with its own run's depth; no other run lends it any. */
  lemma {:induction false} HeaderAtMeaning(network: Network, runs: seq<Run>, blockHash: string, height: u32)
    requires AllValid(network, runs)
    ensures var answer := CheckpointHeaderSource(RecordedAll(network, runs)).HeaderAt(blockHash, height);
      var j := LastRun(runs, Lower(blockHash));
      if j < 0 then answer.None?
      else
        var i := LastIn(runs[j], |runs[j].blocks|, Lower(blockHash));
        if i < 0 || runs[j].checkpoint.height + i != height then answer.None?
        else answer.Some? && Vouches(network, runs, blockHash, height, answer.value, j, i)
  {
    RecordedAllLookup(network, runs, Lower(blockHash));
    var j := LastRun(runs, Lower(blockHash));
    if j >= 0 {
      var i := LastIn(runs[j], |runs[j].blocks|, Lower(blockHash));
      assert Confirmations(EntryAt(runs[j], i)) == |runs[j].blocks| - i;
    }
  }

  // Difficulty along a whole mainnet run.

  /** The target block `i` states. */
  function Target(r: Run, i: nat): nat
    requires i < |r.blocks|
  {
    DecodeCompact(r.blocks[i].bits)
  }

  /** On mainnet the compact target changes nowhere but at a boundary, and there to the retarget of the
      epoch that ended. */
  lemma MainnetBits(r: Run, i: nat)
    requires ValidRun(Mainnet, r) && 0 < i < |r.blocks|
    ensures if OnBoundary(i)
      then i >= RETARGET_INTERVAL
        && r.blocks[i].bits == RetargetBits(r.blocks[i - 1].bits, r.blocks[i - 1].time, r.blocks[i - RETARGET_INTERVAL].time)
      else r.blocks[i].bits == r.blocks[i - 1].bits
  {
    FaultFreeMeaning(Mainnet, r, |r.blocks|, i);
    BitsFromHeight(r, i);
  }

  lemma BitsFromHeight(r: Run, i: nat)
    requires 0 < i < |r.blocks| && OnBoundary(r.checkpoint.height)
    requires BitsCorrect(r, i)
    ensures if OnBoundary(i)
      then i >= RETARGET_INTERVAL
        && r.blocks[i].bits == RetargetBits(r.blocks[i - 1].bits, r.blocks[i - 1].time, r.blocks[i - RETARGET_INTERVAL].time)
      else r.blocks[i].bits == r.blocks[i - 1].bits
  {
    LookbackInRun(r.checkpoint.height, i);
  }

  /** Within an epoch every block carries the same compact target. */
  lemma {:induction false} EpochBitsConstant(r: Run, i: nat, j: nat)
    requires ValidRun(Mainnet, r) && i <= j < |r.blocks|
    requires i / RETARGET_INTERVAL == j / RETARGET_INTERVAL
    ensures r.blocks[i].bits == r.blocks[j].bits
  {
    if i < j {
      EpochBitsConstant(r, i, j - 1);
      MainnetBits(r, j);
    }
  }

  lemma TargetStep(r: Run, i: nat)
    requires ValidRun(Mainnet, r) && 0 < i < |r.blocks|
    ensures if OnBoundary(i) then Target(r, i) <= PowLimit() && Target(r, i) <= 4 * Target(r, i - 1)
      else Target(r, i) == Target(r, i - 1)
  {
    MainnetBits(r, i);
    if OnBoundary(i) {
      RetargetBounded(r.blocks[i - 1].bits, r.blocks[i - 1].time, r.blocks[i - RETARGET_INTERVAL].time);
    }
  }

  /** If the checkpoint block's target is within the limit, so is every block's. */
  lemma {:induction false} TargetsWithinLimit(r: Run, i: nat)
    requires ValidRun(Mainnet, r) && i < |r.blocks|
    requires Target(r, 0) <= PowLimit()
    ensures Target(r, i) <= PowLimit()
  {
    if i > 0 {
      TargetsWithinLimit(r, i - 1);
      TargetStep(r, i);
    }
  }

  /** `target * 4^epochs`. */
  function Eased(target: nat, epochs: nat): nat {
    if epochs == 0 then target else 4 * Eased(target, epochs - 1)
  }

  /** Along a whole run every block hash is within its target, and a target is at most four times the
      anchor's per epoch crossed: difficulty falls by no more than a factor of four per 2016 blocks. */
  lemma {:induction false} WholeRunDifficulty(r: Run, i: nat)
    requires ValidRun(Mainnet, r) && i < |r.blocks|
    ensures Value(Reverse(r.blocks[i].hash)) <= Target(r, i) <= Eased(Target(r, 0), i / RETARGET_INTERVAL)
  {
    FaultFreeMeaning(Mainnet, r, |r.blocks|, i);
    if i > 0 {
      WholeRunDifficulty(r, i - 1);
      TargetStep(r, i);
      EpochOfPrevious(i);
    }
  }

  lemma EpochOfPrevious(i: nat)
    requires i > 0
    ensures (i - 1) / RETARGET_INTERVAL == if OnBoundary(i) then i / RETARGET_INTERVAL - 1 else i / RETARGET_INTERVAL
  {
  }

  // Extending a run from a block it validated.

  /** The blocks of `a` up to block `k`, followed by those of a run that starts at that block. */
  function Extended(a: Run, k: nat, b: Run): Run
    requires k <= |a.blocks|
  {
    Run(a.checkpoint, a.blocks[..k] + b.blocks)
  }

  /** A validated block is a sound new checkpoint: a run anchored at it, joined to the run that validated
      it, is one valid run from the original checkpoint. The two runs must agree on the block itself,
      which equal hashes give unless the hash collides. */
  lemma RunsCompose(network: Network, a: Run, k: nat, b: Run)
    requires ValidRun(network, a) && ValidRun(network, b)
    requires k < |a.blocks| && b.checkpoint.height == a.checkpoint.height + k
    requires a.blocks[k] == b.blocks[0]
    ensures ValidRun(network, Extended(a, k, b))
  {
    var c := Extended(a, k, b);
    assert c.blocks[0] == a.blocks[0];
    forall i | 0 <= i < |c.blocks|
      ensures Fault(network, c, i).None?
    {
      if i <= k {
        EarlyFault(network, a, k, b, i);
      } else {
        LateFault(network, a, k, b, i);
      }
    }
    NoFaults(network, c, |c.blocks|);
  }

  lemma EarlyFault(network: Network, a: Run, k: nat, b: Run, i: nat)
    requires ValidRun(network, a) && i <= k < |a.blocks|
    requires |b.blocks| > 0 && a.blocks[k] == b.blocks[0]
    ensures Fault(network, Extended(a, k, b), i).None?
  {
    FaultFreeMeaning(network, a, |a.blocks|, i);
    SameFault(network, a, i, Extended(a, k, b), i);
  }

  /** The checks on a block depend only on the block, the one before it, the one a whole interval before
      it, and where the boundaries lie. */
  lemma SameFault(network: Network, r: Run, i: nat, r': Run, i': nat)
    requires i < |r.blocks| && i' < |r'.blocks| && (i == 0 <==> i' == 0)
    requires r.blocks[i] == r'.blocks[i']
    requires i > 0 ==> r.blocks[i - 1] == r'.blocks[i' - 1]
    requires network.ChecksPow() && i > 0 ==>
      && (OnBoundary(r.checkpoint.height + i) <==> OnBoundary(r'.checkpoint.height + i'))
      && (OnBoundary(r.checkpoint.height + i) ==> (i >= RETARGET_INTERVAL <==> i' >= RETARGET_INTERVAL))
      && (OnBoundary(r.checkpoint.height + i) && i >= RETARGET_INTERVAL ==>
            r.blocks[i - RETARGET_INTERVAL] == r'.blocks[i' - RETARGET_INTERVAL])
    ensures Fault(network, r, i).None? <==> Fault(network, r', i').None?
  {
  }

  lemma LateFault(network: Network, a: Run, k: nat, b: Run, i: nat)
    requires ValidRun(network, b) && k < |a.blocks| && b.checkpoint.height == a.checkpoint.height + k
    requires k < i < k + |b.blocks|
    ensures Fault(network, Extended(a, k, b), i).None?
  {
    var c, m := Extended(a, k, b), i - k;
    FaultFreeMeaning(network, b, |b.blocks|, m);
    ExtendedBlock(a, k, b, m);
    ExtendedBlock(a, k, b, m - 1);
    if network.ChecksPow() && OnBoundary(b.checkpoint.height + m) {
      LookbackInRun(b.checkpoint.height, m);
      ExtendedBlock(a, k, b, m - RETARGET_INTERVAL);
    }
    assert c.checkpoint.height + i == b.checkpoint.height + m;
    SameFault(network, b, m, c, i);
  }

  lemma ExtendedBlock(a: Run, k: nat, b: Run, m: nat)
    requires k <= |a.blocks| && m < |b.blocks|
    ensures Extended(a, k, b).blocks[k + m] == b.blocks[m]
  {
  }
}
