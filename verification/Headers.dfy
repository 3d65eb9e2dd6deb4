/** Validation of raw 80-byte headers (crates/rfq-consignment/src/headers.rs:99-319). */
module Headers {
  import opened Bytes
  import opened Options
  import opened Hex
  import opened Merkle
  import opened Compact
  import opened CompactTarget
  import opened Difficulty
  import opened HeaderChain

  /** Raw headers with the checkpoint the first must hash to. */
  datatype Segment = Segment(checkpoint: Checkpoint, headers: seq<seq<byte>>)

  function LittleEndian(b: seq<byte>): u32
    requires |b| == 4
  {
    (b[0] as int) + (b[1] as int) * 0x100 + (b[2] as int) * 0x1_0000 + (b[3] as int) * 0x100_0000
  }

  function TimeOf(header: seq<byte>): u32
    requires |header| == 80
  {
    LittleEndian(header[68..72])
  }

  function BitsOf(header: seq<byte>): u32
    requires |header| == 80
  {
    LittleEndian(header[72..76])
  }

  /** The fields of an 80-byte header, with its hash. */
  function ParseHeader(h: HashFunction, header: seq<byte>): (b: Block)
    requires |header| == 80
    ensures b.hash == h(header) && |b.prev| == 32 && |b.root| == 32
    ensures forall j :: 0 <= j < 32 ==> b.prev[j] == header[4 + j]
    ensures forall j :: 0 <= j < 32 ==> b.root[j] == header[36 + j]
    ensures b.time ==
      header[68] as int + header[69] as int * 0x100 + header[70] as int * 0x1_0000 + header[71] as int * 0x100_0000
    ensures b.bits ==
      header[72] as int + header[73] as int * 0x100 + header[74] as int * 0x1_0000 + header[75] as int * 0x100_0000
  {
    Block(h(header), header[4..36], header[36..68], TimeOf(header), BitsOf(header))
  }

  /** The blocks of raw headers, if every header is exactly 80 bytes. */
  function ParseHeaders(h: HashFunction, headers: seq<seq<byte>>): (r: Option<seq<Block>>)
    ensures r.Some? ==> |r.value| == |headers|
  {
    if |headers| == 0 then Some([])
    else match ParseHeaders(h, headers[..|headers| - 1])
      case None => None
      case Some(blocks) =>
        var last := headers[|headers| - 1];
        if |last| == 80 then Some(blocks + [ParseHeader(h, last)]) else None
  }

  /** The run a segment stands for. */
  function ParseRun(h: HashFunction, s: Segment): Option<Run> {
    match ParseHeaders(h, s.headers)
    case None => None
    case Some(blocks) => Some(Run(s.checkpoint, blocks))
  }

  lemma {:induction false} ParseHeadersMeaning(h: HashFunction, headers: seq<seq<byte>>)
    ensures ParseHeaders(h, headers).Some? <==> forall i :: 0 <= i < |headers| ==> |headers[i]| == 80
    ensures ParseHeaders(h, headers).Some? ==>
      forall i :: 0 <= i < |headers| && |headers[i]| == 80 ==> ParseHeaders(h, headers).value[i] == ParseHeader(h, headers[i])
  {
    if |headers| > 0 {
      ParseHeadersMeaning(h, headers[..|headers| - 1]);
    }
  }

  /** The outcome for an anchored run: its top height, or its first fault. */
  ghost function RunResult(network: Network, r: Run): Result<u32, RunError>
    requires Fits(r) && Anchored(network, r)
  {
    var k := FaultFree(network, r, |r.blocks|);
    if k < |r.blocks| then Failure(Fault(network, r, k).value)
    else Success(r.checkpoint.height + |r.blocks| - 1)
  }

  method HeaderMeetsPow(b: Block) returns (ok: bool)
    ensures ok <==> Value(Reverse(b.hash)) <= DecodeCompact(b.bits)
  {
    var target := TargetFromCompact(b.bits);
    var hashBigEndian := Reverse(b.hash);
    ok := !LexLess(target, hashBigEndian);
    LexIsNumeric(target, hashBigEndian);
  }

  /** Checks one run and records every block of it; on an error the blocks before it stay recorded. */
  method ValidateRun(h: HashFunction, network: Network, s: Segment, table: Table)
      returns (result: Result<u32, RunError>, recorded: Table)
    requires s.checkpoint.height + |s.headers| < 0x1_0000_0000
    ensures result.Success? <==> ParseRun(h, s).Some? && ValidRun(network, ParseRun(h, s).value)
    ensures ParseRun(h, s).Some? && Anchored(network, ParseRun(h, s).value) ==>
      var r := ParseRun(h, s).value;
      result == RunResult(network, r) && recorded == Recorded(table, r, FaultFree(network, r, |r.blocks|))
    ensures !(ParseRun(h, s).Some? && Anchored(network, ParseRun(h, s).value)) ==> recorded == table
    ensures result.Success? ==> |s.headers| > 0 && result.value == s.checkpoint.height + |s.headers| - 1
    ensures result.Success? ==> forall i :: 0 <= i < |s.headers| ==> |s.headers[i]| == 80
    ensures result.Success? ==> DisplayHash(h(s.headers[0])) == Lower(s.checkpoint.blockHash)
    ensures result.Success? ==> forall i :: 0 < i < |s.headers| ==> s.headers[i][4..36] == h(s.headers[i - 1])
  {
    if ParseRun(h, s).Some? && ValidRun(network, ParseRun(h, s).value) {
      RawLinks(h, network, s);
    }
    recorded := table;
    if |s.headers| == 0 {
      return Failure(NoHeaders), recorded;
    }
    ParseHeadersMeaning(h, s.headers);
    if exists i :: 0 <= i < |s.headers| && |s.headers[i]| != 80 {
      return Failure(BadLength), recorded;
    }
    var run := ParseRun(h, s).value;
    var firstHash := BlockHash(run.blocks[0]);
    DisplayRoundTrip(run.blocks[0].hash);
    if Lower(firstHash) != Lower(s.checkpoint.blockHash) {
      return Failure(CheckpointMismatch), recorded;
    }
    if network.ChecksPow() && s.checkpoint.height % RETARGET_INTERVAL != 0 {
      return Failure(NotOnBoundary), recorded;
    }
    result, recorded := RecordRun(network, run, table);
  }

  /** The compact target in bytes 72 to 76 of header `i` changes only at a multiple of 2016, and there to the
      retarget of the header before by the times in bytes 68 to 72. */
  ghost predicate CarriesBits(s: Segment, i: nat)
    requires i < |s.headers| && forall m :: 0 <= m < |s.headers| ==> |s.headers[m]| == 80
  {
    i == 0 || BitsOf(s.headers[i]) ==
      if (s.checkpoint.height + i) % 2016 == 0 && i >= 2016 then
        RetargetBits(BitsOf(s.headers[i - 1]), TimeOf(s.headers[i - 1]), TimeOf(s.headers[i - 2016]))
      else BitsOf(s.headers[i - 1])
  }

  /** A segment of raw headers stands for a valid run exactly if every header is 80 bytes long, the first hashes to
      the checkpoint, bytes 4 to 36 of every other are the hash of the one before it, and on mainnet the run starts
      on a multiple of 2016, every hash is within its header's target, and every header carries the target it must. */
  lemma RawRun(h: HashFunction, network: Network, s: Segment)
    ensures ParseRun(h, s).Some? && ValidRun(network, ParseRun(h, s).value) <==>
      && |s.headers| > 0
      && (forall i :: 0 <= i < |s.headers| ==> |s.headers[i]| == 80)
      && DisplayHash(h(s.headers[0])) == Lower(s.checkpoint.blockHash)
      && (forall i :: 0 < i < |s.headers| ==> s.headers[i][4..36] == h(s.headers[i - 1]))
      && (network == Mainnet ==>
        && s.checkpoint.height % 2016 == 0
        && (forall i :: 0 <= i < |s.headers| ==>
          Value(Reverse(h(s.headers[i]))) <= DecodeCompact(BitsOf(s.headers[i])))
        && (forall i :: 0 <= i < |s.headers| ==> CarriesBits(s, i)))
  {
    ParseHeadersMeaning(h, s.headers);
    if ParseRun(h, s).Some? {
      var r := ParseRun(h, s).value;
      ParsedFields(h, s, r);
      ValidRunChecks(network, r);
      forall i | 0 <= i < |s.headers|
        ensures Linked(r, i) <==> i == 0 || s.headers[i][4..36] == h(s.headers[i - 1])
        ensures MeetsTarget(r.blocks[i]) <==> Value(Reverse(h(s.headers[i]))) <= DecodeCompact(BitsOf(s.headers[i]))
        ensures BitsCorrect(r, i) <==> CarriesBits(s, i)
      {
        SameChecks(h, s, r, i);
      }
    }
  }

  lemma SameChecks(h: HashFunction, s: Segment, r: Run, i: nat)
    requires SameFields(h, s, r) && i < |s.headers|
    ensures Linked(r, i) <==> i == 0 || s.headers[i][4..36] == h(s.headers[i - 1])
    ensures MeetsTarget(r.blocks[i]) <==> Value(Reverse(h(s.headers[i]))) <= DecodeCompact(BitsOf(s.headers[i]))
    ensures BitsCorrect(r, i) <==> CarriesBits(s, i)
  {
    FieldsAt(h, s, r, i);
    if i > 0 {
      FieldsAt(h, s, r, i - 1);
      if i >= 2016 {
        FieldsAt(h, s, r, i - 2016);
      }
    }
    SameBits(s, r, i);
  }

  lemma SameBits(s: Segment, r: Run, i: nat)
    requires r.checkpoint == s.checkpoint && i < |r.blocks| == |s.headers|
    requires forall m :: 0 <= m < |s.headers| ==> |s.headers[m]| == 80
    requires r.blocks[i].bits == BitsOf(s.headers[i])
    requires i > 0 ==>
      r.blocks[i - 1].bits == BitsOf(s.headers[i - 1]) && r.blocks[i - 1].time == TimeOf(s.headers[i - 1])
    requires i >= 2016 ==> r.blocks[i - 2016].time == TimeOf(s.headers[i - 2016])
    ensures BitsCorrect(r, i) <==> CarriesBits(s, i)
  {
  }

  lemma FieldsAt(h: HashFunction, s: Segment, r: Run, i: nat)
    requires SameFields(h, s, r) && i < |s.headers|
    ensures r.blocks[i].bits == BitsOf(s.headers[i]) && r.blocks[i].time == TimeOf(s.headers[i])
  {
  }

  lemma RawLinks(h: HashFunction, network: Network, s: Segment)
    requires ParseRun(h, s).Some? && ValidRun(network, ParseRun(h, s).value)
    ensures |s.headers| > 0 && forall i :: 0 <= i < |s.headers| ==> |s.headers[i]| == 80
    ensures DisplayHash(h(s.headers[0])) == Lower(s.checkpoint.blockHash)
    ensures forall i :: 0 < i < |s.headers| ==> s.headers[i][4..36] == h(s.headers[i - 1])
  {
    RawRun(h, network, s);
  }

  ghost predicate SameFields(h: HashFunction, s: Segment, r: Run) {
    && r.checkpoint == s.checkpoint && |r.blocks| == |s.headers|
    && forall i :: 0 <= i < |s.headers| ==>
      && |s.headers[i]| == 80
      && r.blocks[i].hash == h(s.headers[i])
      && r.blocks[i].prev == s.headers[i][4..36]
      && r.blocks[i].root == s.headers[i][36..68]
      && r.blocks[i].time == TimeOf(s.headers[i])
      && r.blocks[i].bits == BitsOf(s.headers[i])
  }

  lemma ParsedFields(h: HashFunction, s: Segment, r: Run)
    requires ParseRun(h, s) == Some(r)
    ensures SameFields(h, s, r)
  {
    ParseHeadersMeaning(h, s.headers);
    assert forall i :: 0 <= i < |s.headers| ==> r.blocks[i] == ParseHeader(h, s.headers[i]);
  }

  /** The loop of the validation: check each block against the ones before it, then record it. */
  method RecordRun(network: Network, r: Run, table: Table) returns (result: Result<u32, RunError>, recorded: Table)
    requires Fits(r) && Anchored(network, r)
    ensures result == RunResult(network, r)
    ensures recorded == Recorded(table, r, FaultFree(network, r, |r.blocks|))
  {
    recorded := table;
    var prevHash := BlockHash(r.blocks[0]);
    for i := 0 to |r.blocks|
      invariant Passed(network, r, table, i, prevHash, recorded)
    {
      var fault := CheckBlock(network, r, i, prevHash);
      RecordStep(network, r, table, i);
      if fault.Some? {
        return Failure(fault.value), recorded;
      }
      prevHash := BlockHash(r.blocks[i]);
      recorded := recorded[prevHash := EntryAt(r, i)];
      assert Passed(network, r, table, i + 1, prevHash, recorded);
    }
    result := Success(r.checkpoint.height + |r.blocks| - 1);
  }

  /** The state of the loop after `i` blocks passed and were recorded. */
  ghost predicate Passed(network: Network, r: Run, table: Table, i: nat, prevHash: string, recorded: Table)
    requires Fits(r) && i <= |r.blocks|
  {
    && FaultFree(network, r, i) == i
    && recorded == Recorded(table, r, i)
    && (i > 0 ==> prevHash == BlockHash(r.blocks[i - 1]))
  }

  lemma RecordStep(network: Network, r: Run, table: Table, i: nat)
    requires Fits(r) && i < |r.blocks| && FaultFree(network, r, i) == i
    ensures Fault(network, r, i).Some? ==> FaultFree(network, r, |r.blocks|) == i
    ensures Fault(network, r, i).None? ==> FaultFree(network, r, i + 1) == i + 1
    ensures Recorded(table, r, i + 1) == Recorded(table, r, i)[BlockHash(r.blocks[i]) := EntryAt(r, i)]
  {
    FaultFreeMeaning(network, r, |r.blocks|, i);
  }

  /** The checks on one block, the loop body of the validation: linkage to the hash before it, then, on a
      network that checks it, its own proof of work and the compact target it must carry. */
  method CheckBlock(network: Network, r: Run, i: nat, prevHash: string) returns (fault: Option<RunError>)
    requires i < |r.blocks|
    requires i > 0 ==> prevHash == BlockHash(r.blocks[i - 1])
    requires network.ChecksPow() ==> OnBoundary(r.checkpoint.height)
    ensures fault == Fault(network, r, i)
  {
    var b := r.blocks[i];
    if i > 0 {
      LinkageAsText(b.prev, r.blocks[i - 1].hash);
      if Lower(DisplayHash(b.prev)) != Lower(prevHash) {
        return Some(BrokenLinkage(i));
      }
    }
    if network.ChecksPow() {
      var ok := HeaderMeetsPow(b);
      if !ok {
        return Some(FailsPow(i));
      }
      if i > 0 {
        var expected := ExpectedBits(r, i);
        if b.bits != expected {
          return Some(WrongBits(i));
        }
      }
    }
    fault := None;
  }

  /** The compact target block `i` must carry, looked up in the run itself; the lookback is never out of
      range. */
  method ExpectedBits(r: Run, i: nat) returns (bits: nat)
    requires 0 < i < |r.blocks| && OnBoundary(r.checkpoint.height)
    ensures BitsCorrect(r, i) <==> r.blocks[i].bits == bits
  {
    LookbackInRun(r.checkpoint.height, i);
    if (r.checkpoint.height + i) % RETARGET_INTERVAL == 0 {
      var last, first := r.blocks[i - 1], r.blocks[i - RETARGET_INTERVAL];
      bits := ExpectedRetargetBits(last.bits, last.time, first.time);
    } else {
      bits := r.blocks[i - 1].bits;
    }
  }

  /** Comparing display texts without regard to case compares the hashes. */
  lemma LinkageAsText(a: Bytes32, b: Bytes32)
    ensures Lower(DisplayHash(a)) == Lower(DisplayHash(b)) <==> a == b
  {
    DisplayRoundTrip(a);
    DisplayRoundTrip(b);
  }

  /** The runs the segments stand for. */
  function ParseSegments(h: HashFunction, segments: seq<Segment>): (r: Option<seq<Run>>)
    ensures r.Some? ==> |r.value| == |segments|
  {
    if |segments| == 0 then Some([])
    else match (ParseSegments(h, segments[..|segments| - 1]), ParseRun(h, segments[|segments| - 1]))
      case (Some(runs), Some(run)) => Some(runs + [run])
      case _ => None
  }

  /** Run by run. */
  lemma {:induction false} ParsedSegment(h: HashFunction, segments: seq<Segment>, j: nat)
    requires ParseSegments(h, segments).Some? && j < |segments|
    ensures ParseRun(h, segments[j]) == Some(ParseSegments(h, segments).value[j])
  {
    if j < |segments| - 1 {
      ParsedSegment(h, segments[..|segments| - 1], j);
    }
  }

  ghost predicate ValidSegments(h: HashFunction, network: Network, segments: seq<Segment>) {
    ParseSegments(h, segments).Some? && AllValid(network, ParseSegments(h, segments).value)
  }

  /** Validates every segment into one table. */
  method FromSegments(h: HashFunction, network: Network, segments: seq<Segment>)
      returns (r: Result<CheckpointHeaderSource, RunError>)
    requires forall j :: 0 <= j < |segments| ==> segments[j].checkpoint.height + |segments[j].headers| < 0x1_0000_0000
    ensures r.Success? <==> |segments| > 0 && ValidSegments(h, network, segments)
    ensures r.Success? ==> r.value.byHash == RecordedAll(network, ParseSegments(h, segments).value)
  {
    if |segments| == 0 {
      return Failure(NoHeaders);
    }
    var byHash: Table := map[];
    for j := 0 to |segments|
      invariant ValidSegments(h, network, segments[..j])
      invariant byHash == RecordedAll(network, ParseSegments(h, segments[..j]).value)
    {
      var result, recorded := ValidateRun(h, network, segments[j], byHash);
      NextSegment(h, network, segments, j);
      if result.Failure? {
        InvalidPrefix(h, network, segments, j + 1);
        return Failure(result.error);
      }
      byHash := recorded;
    }
    assert segments[..|segments|] == segments;
    r := Success(CheckpointHeaderSource(byHash));
  }

  lemma ParseNext(h: HashFunction, segments: seq<Segment>, j: nat)
    requires j < |segments| && ParseSegments(h, segments[..j]).Some?
    ensures ParseSegments(h, segments[..j + 1]) == match ParseRun(h, segments[j])
      case None => None
      case Some(run) => Some(ParseSegments(h, segments[..j]).value + [run])
  {
    assert segments[..j + 1][..j] == segments[..j];
  }

  /** One more segment keeps the list valid exactly if it parses to a valid run that fits, and is recorded
      on top of the ones before. */
  lemma {:induction false} NextSegment(h: HashFunction, network: Network, segments: seq<Segment>, j: nat)
    requires j < |segments| && ValidSegments(h, network, segments[..j])
    ensures ValidSegments(h, network, segments[..j + 1]) <==>
      && ParseRun(h, segments[j]).Some?
      && Fits(ParseRun(h, segments[j]).value)
      && ValidRun(network, ParseRun(h, segments[j]).value)
    ensures ValidSegments(h, network, segments[..j + 1]) ==>
      var run := ParseRun(h, segments[j]).value;
      RecordedAll(network, ParseSegments(h, segments[..j + 1]).value)
        == Recorded(RecordedAll(network, ParseSegments(h, segments[..j]).value), run, |run.blocks|)
  {
    ParseNext(h, segments, j);
    if ParseRun(h, segments[j]).Some? {
      AllValidNext(network, ParseSegments(h, segments[..j]).value, ParseRun(h, segments[j]).value);
    }
  }

  lemma {:induction false} InvalidPrefix(h: HashFunction, network: Network, segments: seq<Segment>, n: nat)
    requires n <= |segments| && !ValidSegments(h, network, segments[..n])
    ensures !ValidSegments(h, network, segments)
    decreases |segments| - n
  {
    if n < |segments| {
      assert segments[..n + 1][..n] == segments[..n];
      if ValidSegments(h, network, segments[..n + 1]) {
        PrefixValid(h, network, segments[..n + 1]);
      }
      InvalidPrefix(h, network, segments, n + 1);
    } else {
      assert segments[..n] == segments;
    }
  }

  lemma PrefixValid(h: HashFunction, network: Network, segments: seq<Segment>)
    requires |segments| > 0 && ValidSegments(h, network, segments)
    ensures ValidSegments(h, network, segments[..|segments| - 1])
  {
    var runs := ParseSegments(h, segments[..|segments| - 1]).value;
    AllValidNext(network, runs, ParseRun(h, segments[|segments| - 1]).value);
  }
}
