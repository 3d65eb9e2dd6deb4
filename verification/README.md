# A maker and its light client, verified

A Dafny model of a decentralised exchange for RGB assets on Bitcoin: the light client that checks
inclusion proofs, and the maker that quotes, reserves, settles, rebalances and builds swap
transactions. Each module follows the component it is named after:

- `Arithmetic`, `Bytes`, `Hex`, `Compact`, `CompactTarget`, `Difficulty`: 256-bit numbers as byte
  arrays, the compact target encoding and the difficulty retarget.
- `MerkleTree`, `Merkle`, `HeaderChain`, `Headers`, `Verify`: Merkle branches, checkpoint-anchored
  header runs, and the verdict over a proof pack.
- `Store`, `StoreRuns`, `SqliteStore`: the inventory stores, what every run of their operations
  keeps, and their durable form.
- `Settlement`, `SettlementSafety`, `SettlementAtomicity`, `Maker`, `Quoting`: the settlement protocol as
  a transition system over lock-held operations, its safety over all runs, why signing must be one
  step, and the request handlers as runs of it.
- `Ordering`, `Coins`, `CoinSelect`, `CoinSelectProperties`, `Pricing`: coin selection and prices.
- `Matching`, `Ladder`, `LadderProperties`, `RebalanceTx`: the denomination ladder and the budget of a
  rebalance transaction.
- `Swap`, `SwapAgreement`: value arithmetic of the swap transactions and its agreement with what the
  maker reserved.
- `WsConnector`: request/response correlation over one socket.

Where the program loops or updates state there is a method or a class, proved against a
specification function or predicate; what the program promises is proved about those.

## What it found

- A call of the planner after its own split may plan another one, although
  crates/rfq-maker/src/rebalance.rs:122-125 says it plans nothing. `LadderProperties.OneSplitNotEnough`
  gives a family of such inputs, `OneSplitEnoughIff` the exact condition, and `Settled` what does hold:
  repeated planning comes to rest with coverage never worse.
- The safety of settlement needs the reservation check, the broadcast and the mark of a signing
  request to be one step (`SettlementAtomicity`). In the program other requests and the expiry
  may come in between (crates/rfq-maker/src/lib.rs:1838-1894).
- The payout of a sell saturates, so a price below the fee, or one that leaves less than the change
  anchor, silently changes the fee paid or makes the transaction overspend; `Swap.SellConservesIff` is exact.
- A sell somewhat above the advertised depth may still be quoted, as totals round down while depth is
  computed at the exact price: `Quoting.QuotedBeyondAdvertised` gives one, `Quoting.SellQuotedIff` is exact.
- An error of the durable store leaves the change in memory (`SqliteStore.SqliteInventoryStore.Reserve`).
- No 64-byte hash to 32 bytes is injective, so binding is stated as: unless two of the pairs actually
  hashed, one in the fold and one in the tree, collide.

## Model

| member | source | states |
|---|---|---|
| `SettlementSafety.NoDoubleSpend` | crates/rfq-maker/src/lib.rs:1391-1922 | over every run with signing as one step (restarts, expiry, rebalancing, sweeping included): no store row is an input of two swaps on the wire, no quote is swapped twice, and each input of a swap is pending under its reservation and transaction until that transaction is confirmed, and then pending or spent by it |
| `SettlementSafety.OneLiveReservation` | crates/rfq-maker/src/lib.rs:1510-1800 | in every such run a quote has at most one live reservation over both stores, and if it is parked, its entry names that reservation |
| `SettlementSafety.InputStaysPending` | crates/rfq-maker/src/lib.rs:728-792 | the rows of a broadcast swap stay pending under it over every run in which its transaction is not confirmed |
| `SettlementSafety.MinedByRun` | crates/rfq-maker/src/lib.rs:728-792 | a transaction counts as confirmed only if the run confirmed it |
| `SettlementSafety.RunKeepsInv` | crates/rfq-maker/src/lib.rs:718-837 | the invariant behind both: reserved rows are held by whole groups, and what a request read and acts on later still means what it meant |
| `SettlementSafety.EventKeepsInv` | crates/rfq-maker/src/lib.rs:1510-1922 | every lock-held operation keeps that invariant, whatever else runs between the sections of a request |
| `SettlementSafety.CommitKeepsInv` | crates/rfq-maker/src/lib.rs:1847-1894 | a broadcast whose reservation is live puts on the wire one more swap, disjoint from all others |
| `SettlementSafety.LiveEntry` | crates/rfq-maker/src/lib.rs:1838-1852 | a live reservation of an entry’s quote is the entry’s own and holds exactly the recorded inputs |
| `SettlementAtomicity.CommitSafeIffLive` | crates/rfq-maker/src/lib.rs:1838-1894 | with the check and the mark apart, a commit keeps the invariant if and only if the reservation is still live when the transaction goes out |
| `SettlementAtomicity.AtomicityNeeded` | crates/rfq-maker/src/lib.rs:1838-1894 | a reachable state, possible but for atomic signing, in which two swaps spend one row: the deadline passes between check and mark |
| `Maker.Maker.SubmitSignedPsbt` | crates/rfq-maker/src/lib.rs:1808-1922 | `/sign` is the protocol’s signing event after both pools age out, or one of four refusals, each with its exact cause; row by row, overdue rows become available, the entry’s reserved rows become pending under the broadcast transaction (or available if it is refused), all others stay, and the entry is forgotten but for a quote without a transaction yet |
| `Maker.Maker.Settle` | crates/rfq-maker/src/lib.rs:1875-1910 | broadcast, mark and forget: exactly the rows reserved under the entry become pending under the transaction; under the invariant the mark after the broadcast never fails |
| `Maker.QuoteGroup` | crates/rfq-maker/src/lib.rs:1838-1852 | the rows reserved for a quote are exactly the rows reserved under its one reservation |
| `Maker.Maker.Abandon` | crates/rfq-maker/src/lib.rs:1855-1881 | exactly the rows reserved under the entry become available and the entry is forgotten |
| `Maker.Maker.AcceptBuy` | crates/rfq-maker/src/lib.rs:1656-1800 | a find, list, extend, park run of the protocol; the parked entry holds exactly the rows reserved for the quote and not overdue, their deadline is the new one, and no other row changes; refused exactly without a live reservation; a failed build releases exactly the quote’s rows |
| `Maker.Maker.AcceptSell` | crates/rfq-maker/src/lib.rs:1134-1183 | the settlement is parked without a transaction under the live reservation, whose rows get the new deadline; no other row changes but overdue ones |
| `Maker.Maker.DeliverConsignment` | crates/rfq-maker/src/lib.rs:1191-1380 | a delivered consignment completes the parked sell with exactly the reserved rows and extends them, or refuses: without an entry, without a live reservation, or releasing exactly the quote’s rows and forgetting it |
| `Maker.Maker.Hold` | crates/rfq-maker/src/lib.rs:1356-1360 | extending a reservation that still holds a row never fails, and moves the deadline of exactly its rows |
| `Maker.Maker.ListInputs` | crates/rfq-maker/src/lib.rs:1268-1286 | the inputs a transaction is built on are the rows reserved under the id, all of them and no others |
| `Maker.Maker.ReserveFor` | crates/rfq-maker/src/lib.rs:1583-1600 | succeeds exactly if every outpoint is available and then reserves exactly those under the fresh id; a lost race changes nothing |
| `Maker.Maker.ReleaseExpiredReservations` | crates/rfq-maker/src/lib.rs:794-837 | exactly the overdue rows become available, and the parked settlements left are exactly those with a reserved row still in time |
| `Maker.Maker.SweepConfirmations` | crates/rfq-maker/src/lib.rs:728-792 | after a sweep every row pending on a confirmed transaction is spent by it, in both stores, and no other status changed |
| `Quoting.RequestQuoteBuy` | crates/rfq-maker/src/lib.rs:1510-1630 | a buy request is priced by the first order for the asset, rounded up, and reserves exactly the rows selected, each available or overdue before, until 30 seconds from now; all other rows stay but overdue ones |
| `Quoting.RequestQuoteSell` | crates/rfq-maker/src/lib.rs:1011-1112 | a sell request is priced by the first order for the asset, rounded down, and reserves the largest available BTC rows covering price and 546 sats until 30 seconds from now; all other rows stay but overdue ones |
| `Quoting.AdvertisedSellQuoted` | crates/rfq-maker/src/lib.rs:568-618 | an amount the price feed advertises is quoted from the pool it was computed from |
| `Quoting.SellQuotedIff` | crates/rfq-maker/src/lib.rs:1020-1078 | a sell is quoted if and only if it is within the order’s size and its exact price is below one sat more than what the pool holds beyond 546 sats |
| `Quoting.QuotedBeyondAdvertised` | crates/rfq-maker/src/lib.rs:568-618 | a concrete sell above the advertised amount that is quoted all the same, as its price rounds down |
| `Quoting.SelectAndReserveBtc` | crates/rfq-maker/src/lib.rs:1042-1078 | uncontended, what was selected is always reserved |
| `Quoting.QuotedIff` | crates/rfq-maker/src/lib.rs:1528-1602 | a request is quoted if and only if an order prices it, it is not zero and the rows cover it |
| `Quoting.SelectAndReserve` | crates/rfq-maker/src/lib.rs:1577-1600 | uncontended, what was selected is always reserved |
| `Quoting.ListAvailable` | crates/rfq-store/src/lib.rs:880-888 | the listing holds every available row of the asset exactly once |
| `StoreRuns.CoherentRun` | crates/rfq-store/src/lib.rs:841-1242 | in every run with fresh ids and available ingests, rows of one reservation share one status: stage, quote, deadline, transaction |
| `StoreRuns.WholeGroupRun` | crates/rfq-store/src/lib.rs:955-1130 | over a run, the rows of a reservation stay exactly those rows or the reservation is gone for good |
| `StoreRuns.WholeGroupStep` | crates/rfq-store/src/lib.rs:955-1227 | one step moves the whole of a reservation, to one status, or nothing of it |
| `StoreRuns.HoldingsConserved` | crates/rfq-store/src/lib.rs:915-1242 | lifecycle steps never add, drop or revalue an outpoint |
| `StoreRuns.ReleaseUndoesReserve` | crates/rfq-store/src/lib.rs:915-983 | releasing a reservation just made gives every row its status back |
| `StoreRuns.MoveIdempotent` | crates/rfq-store/src/lib.rs:955-1227 | every lifecycle operation is idempotent on statuses |
| `StoreRuns.NothingDueLeft` | crates/rfq-store/src/lib.rs:985-1000 | after expiry the reserved rows are exactly those whose deadline is still to come, untouched |
| `StoreRuns.SpendTwice` | crates/rfq-store/src/lib.rs:1036-1100 | marking spent again changes nothing and finds its rows already spent |
| `Store.FirstBlockedMeaning` | crates/rfq-store/src/lib.rs:925-936 | a reservation is refused exactly if some outpoint is missing or taken, with that outpoint’s error |
| `Store.ForEachRow` | crates/rfq-store/src/lib.rs:964-977 | the loop of every lifecycle method changes exactly the rows its move applies to and counts them |
| `Store.InventoryStore.Reserve` | crates/rfq-store/src/lib.rs:915-953 | all or nothing: every outpoint present and available, and each then reserved under the fresh id with quote and deadline; or no change, and the error of the first outpoint in order that is missing or taken |
| `Store.InventoryStore.ReleaseReservation` | crates/rfq-store/src/lib.rs:955-983 | the reserved rows of the id, and only those, become available; an error if there are none |
| `Store.InventoryStore.MarkBroadcastFailed` | crates/rfq-store/src/lib.rs:1161-1167 | same as releasing |
| `Store.InventoryStore.ReleaseExpiredReservations` | crates/rfq-store/src/lib.rs:985-1000 | exactly the reserved rows whose deadline is not after now become available |
| `Store.InventoryStore.ExtendReservation` | crates/rfq-store/src/lib.rs:1002-1034 | row by row: the reserved rows of the id keep request and quote and get the new deadline, no other changes; an error exactly if there are none, else their number |
| `Store.InventoryStore.MarkPendingBitcoinConfirm` | crates/rfq-store/src/lib.rs:1102-1130 | row by row: the reserved rows of the id become pending under the transaction, no other changes; an error exactly if there are none, else their number |
| `Store.InventoryStore.MarkPendingRgbAcceptance` | crates/rfq-store/src/lib.rs:1132-1159 | exactly the pending rows of the id await acceptance under the same transaction |
| `Store.InventoryStore.MarkRgbAcceptanceFailed` | crates/rfq-store/src/lib.rs:1169-1196 | exactly the rows of the id awaiting acceptance become invalid |
| `Store.InventoryStore.MarkSpent` | crates/rfq-store/src/lib.rs:1036-1100 | rows reserved, pending or awaiting acceptance under the id become spent; an error only if there are none and no row is spent by that transaction |
| `Store.InventoryStore.MarkReorged` | crates/rfq-store/src/lib.rs:1198-1227 | rows spent by the transaction become available, rows pending on it invalid |
| `Store.InventoryStore.FindReservationForQuote` | crates/rfq-store/src/btc.rs:209-223 | some live reservation of the quote, none exactly if there is none |
| `Store.InventoryStore.IngestChangeUtxo` | crates/rfq-store/src/lib.rs:854-864 | a known outpoint is refused with its status, a new one inserted |
| `Store.InventoryStore.MarkInvalid` | crates/rfq-store/src/btc.rs:475-489 | exactly that row becomes invalid whatever its status; an unknown outpoint is an error |
| `Store.InventoryStore.ReplaceForAsset` | crates/rfq-store/src/lib.rs:841-852 | each new outpoint holds its last new row; every other row of the asset is gone and every other row of other assets stays |
| `Store.InsertedMeaning` | crates/rfq-store/src/lib.rs:841-852 | inserting rows in order leaves at each of their outpoints the last one, and everything else as it was |
| `SqliteStore.RecoversLastCommit` | crates/rfq-store/src/sqlite.rs:80-140 | whatever commits and fails, the table is the working copy as of the last mutation that committed, and equals it after every mutation that succeeds |
| `SqliteStore.SqliteInventoryStore.Open` | crates/rfq-store/src/sqlite.rs:87-111 | opening recovers the table exactly |
| `SqliteStore.SqliteInventoryStore.Persist` | crates/rfq-store/src/sqlite.rs:120-139 | the table becomes the working copy, or stays as it was if the transaction fails |
| `SqliteStore.SqliteInventoryStore.Reserve` | crates/rfq-store/src/sqlite.rs:181-196 | succeeds only if reserved and committed; on a failed commit memory stays ahead of the table |
| `SqliteStore.SqliteInventoryStore.MoveReservation` | crates/rfq-store/src/sqlite.rs:198-260 | the working copy moves; the table follows exactly when the call succeeds |
| `SqliteStore.SqliteInventoryStore.MarkSpent` | crates/rfq-store/src/sqlite.rs:235-245 | refused exactly if no row is held under the id and none is spent by the transaction; otherwise succeeds exactly if the write commits, and the table follows exactly then |
| `SqliteStore.SqliteInventoryStore.ReleaseExpiredReservations` | crates/rfq-store/src/sqlite.rs:209-218 | writes through only if something was released, and swallows a failed write |
| `Verify.SpvSoundAndComplete` | crates/rfq-consignment/src/verify.rs:84-150 | an accepting verdict over validated runs means, and is given exactly when, every non-exempt witness folds to the root of a block at its claimed height in a valid run, with at least as many confirmations as asked for and at least one |
| `Verify.SpvSound` | crates/rfq-consignment/src/verify.rs:84-150 | from raw 80-byte headers to the verdict: an accepted witness is exempt or folds to bytes 36 to 68 of a header of the claimed hash and height, in a segment that starts at its checkpoint and is linked throughout, at least the confirmations asked for and at least 1 deep, on mainnet with every hash within its header’s target |
| `Verify.ProvenMeansMined` | crates/rfq-consignment/src/verify.rs:112-140 | the same for one witness, with the witnessing block named: the last recorded occurrence of the claimed hash |
| `Verify.MinedTransaction` | crates/rfq-consignment/src/verify.rs:122-132 | the witness is the transaction of the block that its index names, unless the hash collides on strings actually hashed |
| `Verify.HonestEntryProven` | crates/rfq-consignment/src/verify.rs:84-150 | an honest entry for a deep enough block is accepted |
| `Verify.VerifyPack` | crates/rfq-consignment/src/verify.rs:84-150 | accepts exactly if at most 10 000 witnesses are to be checked and each has an entry whose header is known, whose proof folds to that header’s root, and whose confirmations are at least the number asked for and at least 1; otherwise one rejection with its reason per unproven witness, in order |
| `Verify.RejectionsMeaning` | crates/rfq-consignment/src/verify.rs:100-141 | rejected are exactly the checked witnesses that are not proven, each with its own reason |
| `Verify.ToCheckCount` | crates/rfq-consignment/src/verify.rs:96-96 | the number checked is the number of positions that are not exempt |
| `Verify.CheckWitness` | crates/rfq-consignment/src/verify.rs:112-141 | the first of anchor, header, fold, root and depth that fails is the reason |
| `Verify.CountToCheck` | crates/rfq-consignment/src/verify.rs:96-96 | the number of witnesses not exempt |
| `HeaderChain.HeaderAtMeaning` | crates/rfq-consignment/src/headers.rs:302-318 | what the table answers: the last recorded occurrence of the hash, at its own height, with the depth of its own run; no other run lends any |
| `HeaderChain.LastRunMeaning` | crates/rfq-consignment/src/headers.rs:159-171 | the run that answers holds the hash and no later one does |
| `HeaderChain.RecordedAllLookup` | crates/rfq-consignment/src/headers.rs:159-171 | after all runs are recorded a key holds the entry of its last occurrence |
| `HeaderChain.ValidRunMeaning` | crates/rfq-consignment/src/headers.rs:229-298 | a run is valid exactly if its first block hashes to the checkpoint, each other names the hash before it and, on mainnet, it starts at a multiple of 2016, every hash is within its block’s own target, and the target changes only at multiples of 2016, to the retarget of the 2016 blocks before |
| `HeaderChain.FaultMeaning` | crates/rfq-consignment/src/headers.rs:251-293 | which check a block fails: linkage first, then on mainnet its own work, then its compact target |
| `HeaderChain.WholeRunDifficulty` | crates/rfq-consignment/src/headers.rs:262-294 | along a whole mainnet run every hash is within its target, and targets grow at most fourfold per epoch crossed |
| `HeaderChain.TargetsWithinLimit` | crates/rfq-consignment/src/headers.rs:262-294 | if the checkpoint’s target is within the proof-of-work limit, so is every block’s |
| `HeaderChain.EpochBitsConstant` | crates/rfq-consignment/src/headers.rs:280-283 | the compact target is constant within an epoch |
| `HeaderChain.MainnetBits` | crates/rfq-consignment/src/headers.rs:270-284 | the compact target changes only at a boundary, to the retarget of the epoch that ended, whose first block is in the run |
| `HeaderChain.LookbackInRun` | crates/rfq-consignment/src/headers.rs:237-277 | an aligned run never looks back before its own first block |
| `HeaderChain.RunsCompose` | crates/rfq-consignment/src/headers.rs:182-200 | a validated block is a sound new checkpoint: a run anchored at it joins the run that validated it into one valid run |
| `Headers.FromSegments` | crates/rfq-consignment/src/headers.rs:159-171 | succeeds exactly if there are segments and each parses to a valid run; then every block is recorded in order |
| `Headers.ValidateRun` | crates/rfq-consignment/src/headers.rs:214-300 | succeeds exactly if the run is valid, and then all headers are 80 bytes, the first hashes to the checkpoint and bytes 4 to 36 of each other are the hash of the one before it; otherwise the first failing check, the blocks before it recorded |
| `Headers.RawRun` | crates/rfq-consignment/src/headers.rs:214-300 | exactly which raw headers form a valid run, in the bytes of the headers |
| `Headers.ParseHeader` | crates/rfq-consignment/src/headers.rs:99-126 | hash, previous hash, root, time and target are the hash of the header and its bytes 4 to 36, 36 to 68, 68 to 72 and 72 to 76, the numbers little-endian |
| `Headers.RecordRun` | crates/rfq-consignment/src/headers.rs:250-299 | the loop stops at the first fault and has recorded exactly the blocks before it |
| `Headers.CheckBlock` | crates/rfq-consignment/src/headers.rs:251-293 | linkage, then work, then difficulty: the fault is the first that fails |
| `Headers.ExpectedBits` | crates/rfq-consignment/src/headers.rs:272-284 | the compact target a block must carry; the lookback index is never out of range |
| `Headers.HeaderMeetsPow` | crates/rfq-consignment/src/headers.rs:128-133 | comparing 32-byte arrays is comparing the hash with the target as numbers |
| `Headers.LinkageAsText` | crates/rfq-consignment/src/headers.rs:254-260 | comparing hash texts without regard to case compares the hashes |
| `MerkleTree.HonestBranchFolds` | crates/rfq-consignment/src/merkle.rs:76-102 | completeness: the honest branch of any index folds its leaf to the root, odd levels repeating their last node |
| `MerkleTree.FoldOneMore` | crates/rfq-consignment/src/merkle.rs:86-100 | one more node on a branch is hashed with what the branch folds to, on the side that bit of the index says |
| `MerkleTree.FoldBindsLeaf` | crates/rfq-consignment/src/merkle.rs:76-102 | binding: a branch of the tree’s depth that folds to the root starts from the leaf its index stands for and is the honest branch, unless pairs actually hashed collide |
| `MerkleTree.HighBitsIgnored` | crates/rfq-consignment/src/merkle.rs:86-100 | index bits above the branch length do not matter |
| `MerkleTree.InnerNodeFolds` | crates/rfq-consignment/src/merkle.rs:62-67 | why the depth must be known: an inner node folds to the root along the rest of a branch |
| `Merkle.ComputeMerkleRoot` | crates/rfq-consignment/src/merkle.rs:76-102 | the fold of the parsed branch, or nothing if the branch is too long or any hash malformed |
| `Merkle.FoldsIff` | crates/rfq-consignment/src/merkle.rs:76-102 | a proof folds exactly if it has at most 32 nodes and every hash text is well formed; the empty proof folds to the transaction |
| `Merkle.ProofOneMore` | crates/rfq-consignment/src/merkle.rs:86-100 | one more node in a proof: 64 bytes are hashed, the root so far first exactly if that bit of the index is 0 |
| `Merkle.SmallBlocks` | crates/rfq-consignment/src/merkle.rs:76-102 | one transaction is its own root, two are hashed together, a third is paired with itself |
| `Merkle.HashSides` | crates/rfq-consignment/src/merkle.rs:89-98 | the node’s bytes come first in the 64 hashed exactly if the index bit is 0, the sibling’s otherwise |
| `Merkle.HonestProofAccepted` | crates/rfq-consignment/src/merkle.rs:76-102 | the honest textual proof of a transaction is accepted |
| `Merkle.ProofBindsTransaction` | crates/rfq-consignment/src/merkle.rs:76-102 | an accepted textual proof of the tree’s depth names the transaction at its index |
| `Hex.DisplayRoundTrip` | crates/rfq-consignment/src/merkle.rs:52-61 | display text parses back to the hash |
| `Hex.ParsedDisplay` | crates/rfq-consignment/src/merkle.rs:52-61 | a text that parses is, trimmed and lower-cased, the display of what it parses to |
| `Hex.EncodeDecode` | crates/rfq-consignment/src/merkle.rs:24-48 | decoding an encoding gives the bytes back |
| `Hex.DecodeEncode` | crates/rfq-consignment/src/merkle.rs:24-48 | encoding a decoding gives the text back up to letter case |
| `Hex.HexToBytes` | crates/rfq-consignment/src/merkle.rs:24-39 | decodes the trimmed text exactly if it is an even number of digits, byte k from digits 2k and 2k + 1 |
| `Hex.DecodeMeaning` | crates/rfq-consignment/src/merkle.rs:24-39 | a text decodes exactly if it is an even number of digits, each pair one byte, higher half first |
| `Hex.BytesToHex` | crates/rfq-consignment/src/merkle.rs:42-48 | lower-case text of the bytes |
| `Hex.Hash32DisplayToInternal` | crates/rfq-consignment/src/merkle.rs:52-61 | exactly the texts of 64 digits once trimmed parse, byte k written by digits 2(31 - k) and 2(31 - k) + 1 |
| `Difficulty.MulU64` | crates/rfq-consignment/src/difficulty.rs:79-88 | the product modulo 2^256, carry within 128 bits |
| `Difficulty.DivU64` | crates/rfq-consignment/src/difficulty.rs:91-101 | the quotient rounded down, every digit within a byte |
| `Difficulty.ExpectedRetargetBits` | crates/rfq-consignment/src/difficulty.rs:108-119 | the byte-array program computes the retarget on numbers that `Difficulty.RetargetMeaning` spells out |
| `Difficulty.RetargetMeaning` | crates/rfq-consignment/src/difficulty.rs:108-119 | the retarget is the encoding of min(limit, old * timespan / 1 209 600), the timespan being last - first held between 302 400 and 4 838 400 seconds |
| `Difficulty.MainnetRetarget` | crates/rfq-consignment/src/difficulty.rs:181-191 | the retarget of block 840672 of mainnet: 0x17034219 becomes 0x170331db |
| `Difficulty.NextTargetExact` | crates/rfq-consignment/src/difficulty.rs:77-119 | for a previous target within the limit nothing overflows: min(limit, target * timespan / expected) on unbounded numbers |
| `Difficulty.RetargetBounded` | crates/rfq-consignment/src/difficulty.rs:108-119 | whatever the previous word, the decoded retarget is within the limit and at most four times the previous target |
| `Difficulty.RetargetMonotone` | crates/rfq-consignment/src/difficulty.rs:108-119 | the decoded retarget is monotone in the last time and antitone in the first |
| `Difficulty.RetargetUnchanged` | crates/rfq-consignment/src/difficulty.rs:108-119 | an epoch of exactly the intended length leaves a canonical target unchanged |
| `Bytes.LexIsNumeric` | crates/rfq-consignment/src/difficulty.rs:115-117 | array order is numeric order |
| `CompactTarget.TargetFromCompact` | crates/rfq-consignment/src/difficulty.rs:29-54 | the byte placement, wrapped indices included, yields the decoded number |
| `CompactTarget.CompactFromTarget` | crates/rfq-consignment/src/difficulty.rs:57-75 | the scan for the leading byte yields the encoded number |
| `Compact.DecodeEncodeTruncates` | crates/rfq-consignment/src/difficulty.rs:28-75 | decoding an encoding clears exactly the bytes below the leading ones kept |
| `Compact.DecodeMeaning` | crates/rfq-consignment/src/difficulty.rs:28-54 | a word decodes to its low 23 bits times 256 to the power of its high byte less 3 |
| `Compact.EncodeMeaning` | crates/rfq-consignment/src/difficulty.rs:57-75 | a number encodes to the size and mantissa between whose scale, and that of the next mantissa, it lies |
| `Compact.TruncationMonotone` | crates/rfq-consignment/src/difficulty.rs:28-75 | truncation through the compact form keeps order |
| `Compact.EncodeDecodeIffCanonical` | crates/rfq-consignment/src/difficulty.rs:28-75 | encoding a decoding is the identity on exactly the canonical words |
| `Compact.EncodedIsCanonical` | crates/rfq-consignment/src/difficulty.rs:56-75 | every encoding is canonical |
| `CoinSelectProperties.SelectionSound` | crates/rfq-maker/src/coin_select.rs:70-90 | selection fails for zero, for a row of another asset and for too little, each with its error, and otherwise chooses available outpoints, sorted, whose amounts are the amount plus the change |
| `CoinSelectProperties.ExactMatchWins` | crates/rfq-maker/src/coin_select.rs:97-153 | no change is made whenever one coin, two among at most 2000 or three among at most 16 add up exactly |
| `CoinSelectProperties.FewestExact` | crates/rfq-maker/src/coin_select.rs:97-153 | a single exact coin goes before a pair and a pair before a triple |
| `CoinSelectProperties.ExactIff` | crates/rfq-maker/src/coin_select.rs:97-153 | an exact match is found if and only if there is one within the limits |
| `CoinSelectProperties.CandidatesMeaning` | crates/rfq-maker/src/coin_select.rs:77-80 | the coins to choose from are exactly the available rows |
| `CoinSelectProperties.SmallestCoverWins` | crates/rfq-maker/src/coin_select.rs:155-180 | without an exact match the smallest covering coin is used, the earliest outpoint of several |
| `CoinSelectProperties.FewestInputs` | crates/rfq-maker/src/coin_select.rs:162-180 | otherwise no choice of coins that covers the amount uses fewer |
| `CoinSelectProperties.SelectionPermutes` | crates/rfq-maker/src/coin_select.rs:92-95 | the selection is the same for every order of the rows |
| `CoinSelect.Select` | crates/rfq-maker/src/coin_select.rs:64-183 | the whole selector computes the specified selection or error |
| `CoinSelect.SelectSorted` | crates/rfq-maker/src/coin_select.rs:155-182 | picking the better of smallest cover and largest-first is picking the smallest cover when there is one |
| `CoinSelect.SelectExact` | crates/rfq-maker/src/coin_select.rs:97-153 | the three exact searches in order, within their limits |
| `CoinSelect.SingleWins` | crates/rfq-maker/src/coin_select.rs:206-217 | largest-first never beats the smallest covering coin |
| `CoinSelect.PickedCovers` | crates/rfq-maker/src/coin_select.rs:186-200 | what is picked is from the pool and covers the amount, so the change never underflows |
| `CoinSelect.FindPair` | crates/rfq-maker/src/coin_select.rs:109-124 | finds the first pair that adds up exactly, row by row |
| `CoinSelect.FindTriple` | crates/rfq-maker/src/coin_select.rs:125-153 | skipping rows and leaving rows early finds what trying every triple finds |
| `CoinSelect.FindInRow` | crates/rfq-maker/src/coin_select.rs:128-151 | one row: the first position that completes the pair, or none |
| `CoinSelect.PairsComplete` | crates/rfq-maker/src/coin_select.rs:109-124 | no exact pair is missed |
| `CoinSelect.PairFirst` | crates/rfq-maker/src/coin_select.rs:109-124 | the pair found is the first, row by row |
| `CoinSelect.TripleFirst` | crates/rfq-maker/src/coin_select.rs:125-153 | the triple found is the first, row by row |
| `CoinSelect.TriplesComplete` | crates/rfq-maker/src/coin_select.rs:125-153 | no exact triple is missed |
| `CoinSelect.TakeLargest` | crates/rfq-maker/src/coin_select.rs:166-175 | the shortest largest-first prefix that covers the amount |
| `Coins.GreedyFewest` | crates/rfq-store/src/btc.rs:546-584 | largest-first covers the request if anything does, from the pool, with the fewest coins possible |
| `Coins.GreedyMeaning` | crates/rfq-store/src/btc.rs:560-577 | largest-first takes coins of falling amounts, earlier outpoints first among equals, none left out before one taken, and none that is not needed |
| `Coins.GreedyPermutes` | crates/rfq-store/src/btc.rs:562-567 | largest-first does not depend on the order of listing |
| `Coins.LargestAreWorthMost` | crates/rfq-store/src/btc.rs:569-577 | no choice of as many coins is worth more than the largest |
| `Coins.CoinOrdersTotal` | crates/rfq-types/src/lib.rs:4-8 | both sort keys are total orders, so sorting is deterministic |
| `Coins.TakeUntil` | crates/rfq-store/src/btc.rs:569-577 | the shortest prefix that reaches the request, none for zero |
| `CoinSelectProperties.SelectLargestFirst` | crates/rfq-store/src/btc.rs:546-584 | fails exactly if the pool is short, and otherwise takes the largest-first coins |
| `CoinSelectProperties.SelectBtcInputs` | crates/rfq-maker/src/lib.rs:1970-1992 | the same over the taker’s declared coins |
| `Ordering.SortedUnique` | crates/rfq-maker/src/coin_select.rs:92-95 | two sorted arrangements of one multiset are the same sequence |
| `Pricing.SellFillable` | crates/rfq-maker/src/lib.rs:568-618 | an advertised sell amount is priced, and the pool it was computed from covers the price plus the maker’s own anchor |
| `Pricing.AvailableSizeMeaning` | crates/rfq-maker/src/lib.rs:568-618 | an amount is within what is advertised exactly if it is within the order’s size and, for a buy, the available amount of the asset, for a sell, what the pool less 546 sats pays at the exact price |
| `Pricing.UnitPriceMeaning` | crates/rfq-maker/src/lib.rs:106-121 | the first order for asset and side prices a request, and declines it exactly above its largest size |
| `Pricing.BuyFillable` | crates/rfq-maker/src/lib.rs:568-618 | an advertised buy amount is priced and selection over the same inventory succeeds |
| `Pricing.OrderPrices` | crates/rfq-maker/src/lib.rs:568-618 | one line per standing order with its advertised depth |
| `Pricing.SplittingNeverPays` | crates/rfq-maker/src/lib.rs:73-83 | two buys cost at least as much as one, two sells bring at most as much |
| `Pricing.RoundingFavoursMaker` | crates/rfq-maker/src/lib.rs:67-83 | totals are the nearest whole sats against the taker |
| `Pricing.UnitsMeaning` | crates/rfq-maker/src/lib.rs:85-95 | an amount is within the units some sats buy exactly if its exact price is within the sats |
| `Pricing.WholeTokenCostsPrice` | crates/rfq-maker/src/lib.rs:67-83 | a whole token costs its price, whichever way totals are rounded |
| `Matching.DeficitMeaning` | crates/rfq-maker/src/rebalance.rs:96-118 | the covered targets are covered by distinct pieces, no matching covers more, with the deficit they make up all targets, and nothing uncovered is smaller than anything covered |
| `Matching.GreedyOptimal` | crates/rfq-maker/src/rebalance.rs:96-118 | no matching covers more targets than the greedy one |
| `Matching.EqualsCancel` | crates/rfq-maker/src/rebalance.rs:120-157 | pieces equal to targets pair off with themselves and leave the rest as it was |
| `Ladder.LadderDeficit` | crates/rfq-maker/src/rebalance.rs:100-118 | the loop with two indices leaves exactly the greedy matching’s uncovered targets |
| `Ladder.Carve` | crates/rfq-maker/src/rebalance.rs:144-152 | carves each missing rung in turn that still leaves the reserve |
| `Ladder.PlanLadder` | crates/rfq-maker/src/rebalance.rs:126-157 | the planned source, its value and its rungs, or nothing |
| `Ladder.PlanChangeRungs` | crates/rfq-maker/src/rebalance.rs:167-184 | the rungs carved from a swap’s change |
| `LadderProperties.PlanSound` | crates/rfq-maker/src/rebalance.rs:139-157 | planned rungs are missing ones, from a fattest piece, which keeps at least the reserve |
| `LadderProperties.CarvedInTurn` | crates/rfq-maker/src/rebalance.rs:144-152 | each missing rung has its turn and is carved exactly if what is left of the source holds it and the reserve |
| `LadderProperties.MissingMeaning` | crates/rfq-maker/src/rebalance.rs:139-143 | the rungs that have their turn are the missing ones, larger before smaller |
| `LadderProperties.NoPlan` | crates/rfq-maker/src/rebalance.rs:130-156 | nothing is planned exactly if every target is covered or no missing rung fits the fattest piece |
| `LadderProperties.SplitConserves` | crates/rfq-maker/src/rebalance.rs:139-157 | a split conserves the total value |
| `LadderProperties.SplitUsesRoom` | crates/rfq-maker/src/rebalance.rs:139-157 | total minus piece count falls by exactly the number of rungs |
| `LadderProperties.CoverageGrows` | crates/rfq-maker/src/rebalance.rs:120-157 | a split with k rungs leaves at least k - 1 fewer targets uncovered |
| `LadderProperties.Settled` | crates/rfq-maker/src/rebalance.rs:120-157 | planning and splitting comes to rest, at the same total and no worse coverage |
| `LadderProperties.OneSplitEnoughIff` | crates/rfq-maker/src/rebalance.rs:120-126 | the exact condition under which a second call plans nothing |
| `LadderProperties.OneSplitNotEnough` | crates/rfq-maker/src/rebalance.rs:120-126 | a family of inputs, 150 and 140 with three rungs of 100 among them, for which it plans a second split |
| `RebalanceTx.FittedTransaction` | crates/rfq-maker/src/rebalance.rs:233-267 | a fitted transaction needs the fee, 546 sats per RGB rung and per RGB source, and its BTC rungs, and has them; its rungs were asked for and are the largest of their kind, no split is empty, and the BTC plan is whole while an RGB plan is left |
| `RebalanceTx.OneLessMeaning` | crates/rfq-maker/src/rebalance.rs:201-225 | a step gives up one rung, no larger than any of its kind, and a BTC rung only when no RGB rung is left |
| `RebalanceTx.Assemble` | crates/rfq-maker/src/rebalance.rs:233-267 | terminates with the first attempt that is funded, or with nothing left; the attempts each drop one rung |
| `RebalanceTx.Fit` | crates/rfq-maker/src/rebalance.rs:244-266 | the loop: rung count falls until the budget covers the plans |
| `RebalanceTx.ScaleDown` | crates/rfq-maker/src/rebalance.rs:201-225 | drops the first smallest RGB rung, with none left the first smallest BTC rung, and then empty plans |
| `RebalanceTx.SmallestRung` | crates/rfq-maker/src/rebalance.rs:202-209 | the first of the smallest rungs over all plans |
| `RebalanceTx.TrailKeepsLargest` | crates/rfq-maker/src/rebalance.rs:195-225 | along any number of drops the largest RGB rungs stay |
| `RebalanceTx.SumsExact` | crates/rfq-maker/src/rebalance.rs:187-196 | saturating sums are exact where no sum exceeds 64 bits |
| `Swap.BuyConserves` | crates/rfq-rgb/src/swap.rs:418-512 | buy inputs are outputs plus the quoted fee plus at most two dust amounts |
| `Swap.BuyPays` | crates/rfq-rgb/src/swap.rs:480-502 | who gets what of a buy, role by role |
| `Swap.SellPays` | crates/rfq-rgb/src/swap.rs:1045-1103 | who gets what of a sell, role by role |
| `Swap.SellConservesIff` | crates/rfq-rgb/src/swap.rs:1006-1103 | sell inputs are outputs plus the quoted fee plus at most one dust amount if and only if the price covers the fee and the rest with the taker’s anchors covers the change anchor |
| `Swap.SellMayOverspend` | crates/rfq-rgb/src/swap.rs:1048-1051 | a concrete input for which the outputs exceed the inputs |
| `Swap.AssembleBuy` | crates/rfq-rgb/src/swap.rs:418-562 | succeeds exactly if the taker funds price, fee and anchor and the maker’s recycled sats fund the rung anchors; the maker is paid the price and its inputs less 546 per rung unless that is dust, the taker its inputs less price, fee and anchor unless that is dust, each rung and the taker’s receive output 546; the host first |
| `Swap.AssembleSell` | crates/rfq-rgb/src/swap.rs:1006-1152 | succeeds exactly if the rungs match and fit and the maker funds price and anchor; the maker is paid 546 to receive on, its rungs and the rest unless that is dust, the taker the price less the fee, its inputs, less the anchor of its change; the host first |
| `Swap.BuildBuyTransition` | crates/rfq-rgb/src/swap.rs:568-706 | succeeds exactly if allocations cover the amount and the rungs leave a remainder; the taker’s output carries the amount, rung i its own value, the host the remainder |
| `Swap.BuildSellTransition` | crates/rfq-rgb/src/swap.rs:1165-1287 | succeeds exactly if allocations cover the delivery and a surplus has a change seal; the host carries the delivery and the taker’s change the surplus |
| `Swap.SumAllocations` | crates/rfq-rgb/src/swap.rs:615-626 | the allocations add up |
| `SwapAgreement.BuyBuilds` | crates/rfq-maker/src/lib.rs:1656-1777 | a buy as the maker prepares it passes every check of both builders, and no sealed output is missing |
| `SwapAgreement.SellBuilds` | crates/rfq-maker/src/lib.rs:1310-1352 | a sell likewise, and a split change keeps a positive remainder |
| `SwapAgreement.BuyRungsFit` | crates/rfq-maker/src/lib.rs:411-441 | a buy’s rungs are less than the change and each has an anchor within the recycled sats |
| `SwapAgreement.BuyRungsIff` | crates/rfq-maker/src/lib.rs:411-441 | a buy carves rungs exactly if there is a ladder, the reserved RGB exceeds the amount, an anchor is affordable and a missing rung with the reserve fits the change; as many as the change calls for, up to the anchors affordable |
| `SwapAgreement.SellRungsIff` | crates/rfq-maker/src/lib.rs:387-404 | a sell splits its BTC change exactly if a missing rung with the reserve fits it |
| `SwapAgreement.ChangeRungsLeave` | crates/rfq-maker/src/rebalance.rs:167-184 | rungs of a change are missing ones and leave at least the reserve |
| `SwapAgreement.BuyOutputsFound` | crates/rfq-rgb/src/swap.rs:578-584 | every seal of a buy finds its output, carrying the anchor it should |
| `SwapAgreement.ComputeBuyChangeRungs` | crates/rfq-maker/src/lib.rs:411-441 | the rungs asked for, capped by the anchors affordable, smallest dropped first |
| `SwapAgreement.ComputeSellBtcChangeRungs` | crates/rfq-maker/src/lib.rs:387-404 | the rungs asked of a sell’s BTC change |
| `WsConnector.OwnReply` | crates/rfq-router/src/ws_connector.rs:75-86 | a reply a call returned is the disconnect notice or the first response with its own id after it was made |
| `WsConnector.Connector.Register` | crates/rfq-router/src/ws_connector.rs:103-111 | ids are handed out once |
| `WsConnector.Connector.ReadResponse` | crates/rfq-router/src/ws_connector.rs:77-84 | a response goes to the pending request of its id and to no other; without one it is ignored |
| `WsConnector.Connector.EndOfStream` | crates/rfq-router/src/ws_connector.rs:87-93 | every request still pending, and no other, is told the maker is gone |
| `WsConnector.Connector.SendFailed` | crates/rfq-router/src/ws_connector.rs:113-116 | the request is withdrawn and the call fails |
| `WsConnector.Connector.Poll` | crates/rfq-router/src/ws_connector.rs:118-125 | a call resolves once: with what was delivered, or by timing out and withdrawing |
| `WsConnector.Drain` | crates/rfq-router/src/ws_connector.rs:88-92 | one notice per pending request |

## Left out

- Double SHA-256: a parameter, of which nothing is assumed but, where stated, the absence of collisions among the pairs hashed.
- Signatures, transaction finalisation, the taproot commitment and RGB validation: whether they succeed is a parameter of the handlers.
- Settlement and Maker take the transaction broadcast for a buy to be the one the settlement was parked with; the program compares the two only on sells. A sell signing request that finds its entry replaced in between is covered, since a quote has one reservation only.
- Maker: the handlers run uninterrupted; the interleavings are those of the transition system. The lifetimes added to the clock when a reservation is extended are parameters. The retry loop of a buy request after a lost race, fee slippage and payout address checks, and the quote text itself are not modelled.
- Maker.Maker.AcceptBuy: takes reserved rows to be of the quote’s asset, as the selection they come from makes them.
- Settlement: reorganisations, invalidation and replacement of rows are store operations but not events, as the maker never calls them while running; a restart finds the durable stores as the working copies were.
- Headers.ValidateRun, Headers.FromSegments, HeaderChain: checkpoint height plus run length is taken to fit 32 bits, which the program does not check; error texts are reduced to their kind and index; network labels, recommended depths, tip height, epoch listing and the nearest checkpoint are lookups left out.
- Verify: the pack is its map of anchors; its serialisation is left out.
- Hex: strings are sequences of Unicode characters and trimming removes the Unicode white space characters.
- 64-bit sums: Coins, CoinSelect, Ladder, RebalanceTx, Swap and Quoting take the totals they form to be below 2^64, as the program’s own plain sums do; single saturating additions are modelled.
- Pricing: asset precision is at most 18 decimals, so that no 128-bit product overflows; the price feed and the stores name an asset by the same id; an order behind an earlier one for the same asset and side is advertised but never priced from, and the fillability results are about the first.
- LadderSpec: how rungs follow from base, ratio and tiers is floating point; a ladder is any list of rungs of at least the smallest piece, each positive and within 64 bits. The fragmentation score is left out.
- RebalanceTx.Assemble: the corner where sums saturate at 64 bits is excluded by its precondition.
- Swap: an output is its role and value; addresses of different roles are taken to differ; input lists, key origins, sequence numbers and blinding factors are left out.
- Store: rows carry the fields the operations touch; creation time, scripts and the unused pending transaction field are left out. Snapshots and their counters are left out. The BTC store’s rows are the same rows with `amount` as their value.
- SqliteStore: SQL, JSON and connection pooling; a row is taken to be read back as it was written, a transaction to commit whole or not at all. Orders, consignments, contracts and fills are left out.
- WsConnector: frames and their JSON, the writer task and back-pressure. A caller that gives up leaves its entry pending, so nothing is claimed about every pending entry having a caller.
- Electrum, HTTP, wallets, configuration, command line, mock backends and the broker’s registry: input and output, or easy members.
- Estimates of transaction size and feerate clamping: single expressions.
