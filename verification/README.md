# A verified model of the IPC client

Dafny models of the parts of the IPC client (the `ipc` workspace: SDK, provider, identity) in which
something can go subtly wrong, with proofs of what they keep. `dafny verify dfyconfig.toml` checks
everything.

| module | models |
|---|---|
| `CheckpointChains`, `RelayerProtocol` | the bottom-up checkpoint relayer as a step protocol: any number of daemons, one parent, one child, one remote call per step, every call may fail, transactions may be executed after their daemon gave up |
| `RelayerPass` | one daemon as imperative code whose every remote call is a step of that protocol; what a pass and the endless loop achieve |
| `RelayerRecord` | what a pass sends, read off the run: the daemon's transactions against the heights it was told |
| `ConcurrentCatchUp` | what a pass achieves while other daemons act in the middle of it |
| `FeeEstimation` | the EIP-1559 priority fee, the surged base fee and the fee cap |
| `Subnets`, `CrossNet`, `SubnetText` | subnet ids as paths in a tree, hops, routes, message classification, text forms |
| `EvmKeyStore` | the in-memory and the file-backed EVM key store |
| `FvmKeyStore`, `FvmWallet` | the FVM key store in clear and encrypted form, and the wallet that caches over it |
| `Conversions`, `GenesisBalances` | contract types to SDK types and back, on the relayer's fetch-then-submit path; the genesis balance map |
| `PortAllocator` | the compare-exchange loop that hands out ports to integration tests |
| `Bytes`, `Decimal`, `Wrappers` | hexadecimal and decimal text, options and results |

## Main results

- **Relayer safety.** In every run of any number of daemons, with arbitrary failures, restarts, late
  execution and child growth, the parent's log climbs by exactly one period at a time from zero, skips no
  checkpoint, and holds only checkpoints named by quorum events in finalized child blocks
  (`AcceptedLogIsSafe`). Within a pass, the daemon's transactions since it read the child's head are at every
  moment a prefix of what the events above the last height it was told name, and all of it at the end
  (`PassSendsPrefix`).
- **Relayer catch-up.** With quorums reached in order and at most one period late, a pass succeeds exactly if
  no fault strikes, and then leaves the parent at the newest finalized quorum without one rejection
  (`SubmitCheckpoint`). So however often the daemon's loop runs, and whatever happens while it sleeps, n faults
  leave the parent behind at the end of at most n passes (`Run`). `ScanSucceedsExactly` gives the exact condition
  for a scan to meet no rejection. With other daemons interleaved step by step a submission may be rejected
  because someone else was faster; still, in every run, a pass that finishes leaves the parent at least at the
  newest checkpoint with quorum in the blocks it took for final (`FinishedPassHasCaughtUp`), and so does one that
  finds the height gate shut (`ShutGateHasCaughtUp`).
- **Fee estimation.** The loop code computes `Estimate`, which depends only on the multiset of positive
  rewards, is one of them between the upper median and the maximum, and commutes with scaling.
- **Routes.** `common_parent` is the meet of the ancestor order, `up` and `down` are inverse along a path,
  and every hop of every route carries the right label.
- **Key stores.** The sentinel trick is invisible exactly as long as nobody names the sentinel; the wallet's
  cache is invisible; every successful call leaves a file that reopens as the same store, whatever order the
  hash map was written in.
- **Relay transparency.** What is submitted to the parent equals what the child's gateway returned, and
  something is submitted exactly when the bundle's addresses allow it.

## What the code does not do

Each of these is a theorem about the code as it is, with the exact condition under which it goes wrong.

- A quorum event more than one period late becomes stale once the parent has moved past it. It is then the
  first event of every later scan, its submission is rejected every time, and the relayer never gets past
  it: no number of passes moves the parent (`StaleEventWedges`, `Run`; `LateQuorumWedgesRelayer` is a concrete
  history; `ScanSucceedsExactly` says when a scan is stopped).
- `Wallet::remove` deletes an entry under the bare address, while keys live under `wallet-…`: no key is ever
  forgotten (`RemoveForgetsNothing`).
- `Wallet::set_default` removes the old default, and writes that, before it puts the new one in place. A wallet
  loses its default if and only if it sets one to a stored address and the first of the two writes fails
  (`DefaultLostExactly`; `OneFailedWriteLosesDefault` makes it happen).
- `SubnetID::up` panics when the two paths share no child (`UpPanicsExactly`), `SubnetID::from_str` when the
  text has no segment or its first segment starts with a multi-byte character (`ParserPanicsExactly`), and
  opening an encrypted key store when the file is non-empty but shorter than a salt and a nonce
  (`UnsealPanicsExactly`).
- A clear key file that is there but is not a JSON key object, or an encrypted one that deciphers to something
  other than a key map, opens as an empty store without an error, and opening drops contents in no other case
  (`DropsContentsExactly`). The first key saved then replaces what the file held (`FirstPutReplacesContents`).
- Passing the sentinel address to `remove` or `set_default` breaks the EVM store once it has a default
  (`CallKeepsInvExactly`).
- Method numbers are cut to 32 bits on their way to a contract (`MethodSurvivesExactly`).
- The surged base fee is not monotone. It is at least that of every lower base fee if and only if the base fee
  is outside three ranges above the tier boundaries (`SurgeMonotoneExactly`, with `SurgeDropsAtBoundary` as a
  witness).

## Assumptions about what lies outside

- The parent contract accepts a bundle at its last height (a repeat, recording one more submitter) or exactly
  one period above it (`CheckpointChains.Accepts`, `Execute`), following ipc/sdk/src/checkpoint.rs:67-69 and
  ipc/provider/src/checkpoint.rs:24-26. The Solidity source is not part of this model.
- The child never rewrites a finalized block nor a checkpoint named there (`CheckpointChains.Grows`).
  "Finalized" is what the relayer takes for it: block 1 always is, because of the lower bound in its formula.
- In the step protocol a mined transaction counts as a success even if the parent rejected it, since the
  daemon reads only the block number of the receipt. The single daemon of `RelayerPass` sees a submission that
  would be rejected fail at gas estimation, before it is sent.
- Cryptography, base64, CBOR, JSON, address text and the address conversions of other libraries are function
  parameters. What is assumed of them, that decoding undoes encoding, is a named predicate (`Faithful`,
  `Sane`) in the lemmas that need it.
- The threshold of 200 percent in the fee estimator is a constant of the ethers library.

## Model

| member | source | states |
|---|---|---|
| `RelayerProtocol.StepKeepsInv` | ipc/provider/src/checkpoint.rs:118-219 | every step of any daemon, of the parent's mempool and of the child keeps the protocol invariant: accepted log, pooled transactions and all program counters only carry checkpoints named by finalized quorum events |
| `RelayerProtocol.RunKeepsInv` | ipc/provider/src/checkpoint.rs:105-219 | the invariant holds after every feasible run from any initial system |
| `RelayerProtocol.ReachableByRuns` | ipc/provider/src/checkpoint.rs:105-115 | the states that satisfy every inductive property are exactly the states at the end of runs |
| `RelayerProtocol.LadderIsGapless` | ipc/sdk/src/checkpoint.rs:67-69 | a log in which each height repeats or follows by one period ends on a multiple of the period and contains every earlier multiple |
| `RelayerProtocol.AcceptedLogIsSafe` | ipc/provider/src/checkpoint.rs:105-219 | in every run the parent's heights advance by exactly one period, none is skipped, each accepted bundle carries the checkpoint a finalized quorum event names, and two bundles at one height carry the same checkpoint |
| `CheckpointChains.FinalizedIsDeep` | ipc/provider/src/checkpoint.rs:177 | a block counts as finalized if and only if it is block 1 or lies at least the configured number of blocks below the head |
| `RelayerProtocol.AcceptedIsDeep` | ipc/provider/src/checkpoint.rs:105-219 | in every run each accepted checkpoint is named in such a block, stated in arithmetic on the head |
| `RelayerRecord.LogIsWhatWasSent` | ipc/provider/src/checkpoint.rs:105-219 | in every run the parent's log is, as a multiset, exactly the bundles of the accepted transactions: none that nobody sent, none twice for one transaction |
| `RelayerProtocol.SentIsPrefix` | ipc/provider/src/checkpoint.rs:174-219 | at any moment of any run the heights a program counter records as sent are a prefix of the block-ordered heights named in the blocks it scans, and all of them once it finished |
| `RelayerRecord.ScanOnRecord` | ipc/provider/src/checkpoint.rs:174-188 | in every run a scanning daemon was told the parent's last height, one below its first block, then read the head that gives its finalized block, has re-read neither, and its own transactions since are exactly the heights its program counter records |
| `RelayerRecord.PassSendsPrefix` | ipc/provider/src/checkpoint.rs:174-219 | hence in every run the daemon's transactions since it read the head are a prefix of the block-ordered heights named in the blocks above the last height it was told up to the finalized one, and all of them once the pass finished; and the next checkpoint was due |
| `RelayerProtocol.LogOnlyGrows` | ipc/provider/src/checkpoint.rs:105-115 | continuing a run extends the accepted log and never lowers the last height |
| `RelayerPass.ScanSucceedsExactly` | ipc/provider/src/checkpoint.rs:188-216 | with ordered quorums a scan meets no rejection if and only if nothing is left or, by the block of the last accepted checkpoint, quorum was reached for exactly that checkpoint or the one before |
| `RelayerPass.OnTimeKeepsPace` | ipc/provider/src/checkpoint.rs:188-216 | quorums at most one period late satisfy that condition at every checkpoint block |
| `RelayerPass.TimelyQuorumsCatchUp` | ipc/provider/src/checkpoint.rs:174-219 | with ordered, timely quorums everything a pass meets is accepted and the last of it is the newest checkpoint with a finalized quorum, also when the height gate stays shut |
| `RelayerPass.StaleEventWedges` | ipc/provider/src/checkpoint.rs:188-216 | if the first event above the last accepted height names neither it nor the next one, no scan sends anything acceptable, however far the child has grown |
| `RelayerPass.LateQuorumWedgesRelayer` | ipc/provider/src/checkpoint.rs:188-216 | a history with ordered but late quorums in which a first pass is accepted up to 20 and the parent is wedged there from then on |
| `RelayerPass.Relayer.HasSubmittedInLastCheckpointHeight` | ipc/provider/src/checkpoint.rs:138-144 | answers whether the submitter voted and moves only this daemon, or fails and ends the pass |
| `RelayerPass.Relayer.LastBottomUpCheckpointHeight` | ipc/provider/src/checkpoint.rs:124-133 | answers the parent's last height; from it the daemon goes on to repeat that height, to skip at zero, or to the next submission height |
| `RelayerPass.Relayer.Submit` | ipc/provider/src/manager/evm/manager.rs:974-1014 | a submission that reports success was accepted; one that fails sent nothing, left its transaction pooled, or lost only the receipt; unless a fault strikes it succeeds if and only if the parent accepts the height, and nothing that would be rejected is sent |
| `RelayerPass.Relayer.SubmitLastEpoch` | ipc/provider/src/checkpoint.rs:136-171 | never moves the parent's last height, succeeds if and only if no fault strikes, and then the submitter has a vote in the last checkpoint |
| `RelayerPass.Relayer.SubmitEvents` | ipc/provider/src/checkpoint.rs:197-215 | sends an acceptable prefix of the block's heights in order, all of them on success; if no fault strikes exactly the part the parent takes before its first rejection, else all but perhaps the last of it was executed |
| `RelayerPass.Relayer.ScanBlocks` | ipc/provider/src/checkpoint.rs:188-216 | the same for the concatenation over all blocks scanned |
| `RelayerPass.Relayer.SubmitNextEpoch` | ipc/provider/src/checkpoint.rs:174-219 | the same for the heights in the finalized blocks above the last accepted height; nothing is sent while the head is less than the configured depth above the next checkpoint, and never anything not named in a block that deep; the submitter keeps its vote |
| `RelayerPass.Relayer.SubmitCheckpoint` | ipc/provider/src/checkpoint.rs:118-121 | at most one fault strikes a pass; with ordered, timely quorums it succeeds if and only if none does, and then the parent is at the newest finalized quorum: no checkpoint named in a deep enough block is above it, and its own is named in one; after success the submitter has voted; a wedged parent does not move |
| `RelayerPass.Relayer.Run` | ipc/provider/src/checkpoint.rs:105-115 | whatever child, parent and other daemons do between passes: every pass no fault strikes ends caught up if quorums are timely, so no more passes end behind than faults struck; a wedged parent left alone between passes never moves |
| `RelayerPass.FewerFaultsThanPasses` | ipc/provider/src/checkpoint.rs:105-115 | if quorums are timely throughout and fewer passes ended behind than were made, one of them ended caught up |
| `ConcurrentCatchUp.ExecutedMeansReached` | ipc/provider/src/checkpoint.rs:204-208 | with ordered, timely quorums, once a submitted transaction is executed the parent has reached its height, whether it was accepted or rejected |
| `ConcurrentCatchUp.StepKeepsReachInv` | ipc/provider/src/checkpoint.rs:118-219 | every step of any daemon, the parent and the child keeps: the parent has reached everything each pass in progress has got a receipt for |
| `ConcurrentCatchUp.FinishedPassHasCaughtUp` | ipc/provider/src/checkpoint.rs:174-219 | in every run of any number of interleaved daemons, when a pass has finished the parent is at least at the newest checkpoint with quorum in the blocks the pass took for final, if these quorums are ordered and timely |
| `ConcurrentCatchUp.ShutGateHasCaughtUp` | ipc/provider/src/checkpoint.rs:175-183 | in every run, a pass about to return because the finalized height is below the next checkpoint leaves the parent at least at the newest checkpoint with finalized quorum, if quorums are ordered and timely |
| `ConcurrentCatchUp.ParentNeverAhead` | ipc/provider/src/checkpoint.rs:105-219 | in every run the parent is never ahead of the newest checkpoint with finalized quorum, if quorums are ordered |
| `FeeEstimation.CollectPositive` | ipc/provider/src/manager/evm/manager.rs:1191-1195 | finds the blocks without a reward, or returns the first percentiles that are positive |
| `FeeEstimation.PositiveCounts` | ipc/provider/src/manager/evm/manager.rs:1191-1195 | each positive reward is collected once for every block that pays it, and zero never |
| `FeeEstimation.ComputeChanges` | ipc/provider/src/manager/evm/manager.rs:1205-1219 | detects every step outside 256 bits, the wrapped-around pair included, or returns the truncated percentage changes; for sorted rewards these are the growths from each to the next in percent, rounded down |
| `FeeEstimation.FindFirstMax` | ipc/provider/src/manager/evm/manager.rs:1221-1226 | the greatest change and the first position that holds it |
| `FeeEstimation.EstimatePriorityFee` | ipc/provider/src/manager/evm/manager.rs:1190-1240 | computes the specified estimate or reports why there is none, a missing reward if and only if some block has none; every index and unwrap is safe |
| `FeeEstimation.SortSorts` | ipc/provider/src/manager/evm/manager.rs:1203 | sorting gives an ordered permutation |
| `FeeEstimation.EstimateIgnoresOrderAndZeros` | ipc/provider/src/manager/evm/manager.rs:1190-1240 | histories with the same multiset of positive rewards give the same estimate |
| `FeeEstimation.EstimateIsATypicalReward` | ipc/provider/src/manager/evm/manager.rs:1190-1240 | the estimate is 0 without positive rewards, else one of them, at least their upper median and at most their maximum |
| `FeeEstimation.ChangesAre` | ipc/provider/src/manager/evm/manager.rs:1210-1219 | for sorted positive rewards each change c satisfies c * a <= (b - a) * 100 < (c + 1) * a |
| `FeeEstimation.EstimateFollowsFirstJump` | ipc/provider/src/manager/evm/manager.rs:1221-1239 | with k any first greatest change, the fee is the upper median from k on if the next reward is at least three times that at k and k is in the upper half, else the upper median of all |
| `FeeEstimation.StepsFitExactly` | ipc/provider/src/manager/evm/manager.rs:1210-1219 | for sorted rewards, all 256-bit steps fit if and only if the greatest reward does and a hundred times the spread between greatest and least does |
| `FeeEstimation.EstimateExistsExactly` | ipc/provider/src/manager/evm/manager.rs:1190-1219 | given any least and greatest positive reward of a fully reported history, there is an estimate if and only if there is just one positive reward, or the greatest fits a signed 256-bit integer and a hundred times the spread does |
| `FeeEstimation.EstimateScales` | ipc/provider/src/manager/evm/manager.rs:1190-1240 | multiplying every reward by k multiplies the estimate by k, barring overflow |
| `FeeEstimation.SurgeBounds` | ipc/provider/src/manager/evm/manager.rs:1175-1185 | in all four tiers the surged fee is the floor of the tier's share, between the base fee and its double; it exists if and only if twelve times the base fee fits 256 bits |
| `FeeEstimation.SurgeMonotoneExactly` | ipc/provider/src/manager/evm/manager.rs:1175-1185 | a base fee surges at least as high as every lower one if and only if it is at most 40e9, in 50e9..100e9, in 114285714286..200e9, or at least 233333333334 |
| `FeeEstimation.SurgeDropsAtBoundary` | ipc/provider/src/manager/evm/manager.rs:1176-1179 | witness: one unit above the first boundary the surged fee is lower than at it |
| `FeeEstimation.CapBounds` | ipc/provider/src/manager/evm/manager.rs:1143-1170 | the cap covers the priority fee and the base fee and is at most twice the greater one |
| `FeeEstimation.CapExactly` | ipc/provider/src/manager/evm/manager.rs:1161-1169 | the cap is the surged base fee, plus the priority fee exactly when that alone exceeds it; it exists unless that sum overflows |
| `Subnets.SharedCountIs` | ipc/sdk/src/subnet_id.rs:151-156 | the paths agree on the shared part and differ right after it |
| `Subnets.CommonParentDefined` | ipc/sdk/src/subnet_id.rs:145-159 | defined if and only if the roots agree; the count is the depth of the returned subnet |
| `Subnets.CommonParentIsMeet` | ipc/sdk/src/subnet_id.rs:145-159 | greatest lower bound in the ancestor order, both directions |
| `Subnets.MeetIsSemilattice` | ipc/sdk/src/subnet_id.rs:145-159 | idempotent, commutative, associative, and equal to the first argument exactly for ancestors |
| `Subnets.ParentOfChild` | ipc/sdk/src/subnet_id.rs:130-141 | `parent` undoes `new_from_parent` and conversely; only roots have no parent |
| `Subnets.DownAndUpInverse` | ipc/sdk/src/subnet_id.rs:163-191 | along the path to s: one hop down from a strict ancestor and up again returns, one hop up is the parent and down again returns |
| `Subnets.UpPanicsExactly` | ipc/sdk/src/subnet_id.rs:179-191 | `up` panics if and only if same-root paths, the first no shorter, share no child; `down` answers if and only if the roots agree and the path is longer |
| `Subnets.HopsAroundMeet` | ipc/sdk/src/subnet_id.rs:163-191 | from any subnet of the tree, on the path or off it, `down` leads to the common parent's child toward s and `up` to the common parent's parent |
| `Subnets.DownReaches` | ipc/sdk/src/subnet_id.rs:163-175 | iterating `down` visits every subnet on the way and stops at s after exactly the difference of depths |
| `Subnets.UpReaches` | ipc/sdk/src/subnet_id.rs:179-191 | iterating `up` visits every subnet on the way back to any ancestor |
| `CrossNet.BottomUpExactly` | ipc/sdk/src/cross.rs:120-127 | bottom-up if and only if same root and the source is not an ancestor-or-self of the destination |
| `CrossNet.ApplyTypeExactly` | ipc/sdk/src/cross.rs:108-117 | the label of any subnet whatever, of the same tree or not, by meets alone |
| `CrossNet.ReleaseAndFundDirections` | ipc/sdk/src/cross.rs:47-106 | release and fund messages exist exactly below the root, go bottom-up and top-down, mirror each other's end points, move the given value with the given or no fee, and call nothing |
| `CrossNet.RouteIs` | ipc/sdk/src/subnet_id.rs:145-191 | iterating `up` to the common parent and `down` to the destination visits exactly these ancestors |
| `CrossNet.RouteConnects` | ipc/sdk/src/subnet_id.rs:145-191 | every route starts at the source, ends at the destination and moves between parent and child only |
| `CrossNet.RouteLabels` | ipc/sdk/src/cross.rs:99-127 | on every route the hops up to and including the common parent are bottom-up and those below it top-down, all top-down when the source is an ancestor |
| `SubnetText.SubnetRoundTrip` | ipc/sdk/src/subnet_id.rs:194-225 | parsing undoes printing for every subnet with a u64 root |
| `SubnetText.IPCAddressRoundTrip` | ipc/sdk/src/address.rs:78-99 | the same for every IPC address |
| `SubnetText.ParsePrintParse` | ipc/sdk/src/subnet_id.rs:194-225 | for every accepted text, of a subnet or an address, printing and parsing again gives the same value |
| `SubnetText.PrintedForm` | ipc/sdk/src/subnet_id.rs:194-206 | a printed subnet starts with /r and its segments are r with the root, then the children in order |
| `SubnetText.PrintedAddress` | ipc/sdk/src/address.rs:78-83 | a printed address splits at its one colon into subnet and raw address |
| `SubnetText.ParseSubnetExactly` | ipc/sdk/src/subnet_id.rs:214-225 | a text that does not panic is accepted if and only if its first segment without the first letter is a u64 and every later segment is an address; these are the root and the children in order; every other text is InvalidID |
| `SubnetText.ParseIPCAddressExactly` | ipc/sdk/src/address.rs:85-99 | accepted if and only if there is one colon, a raw address after it and a subnet before it; each refusal and the panic has its exact reason |
| `Decimal.ParseUnsignedExactly` | ipc/sdk/src/subnet_id.rs:218 | a u64 is an optional plus sign and digits below the limit, nothing else |
| `SubnetText.SlashesDoNotMatter` | ipc/sdk/src/subnet_id.rs:217 | repeated, leading and trailing slashes do not change what a text denotes |
| `SubnetText.RootLetterDoesNotMatter` | ipc/sdk/src/subnet_id.rs:218 | any one-byte letter before the root id denotes the same subnet |
| `SubnetText.ParserPanicsExactly` | ipc/sdk/src/subnet_id.rs:217-218 | parsing panics if and only if the text is slashes only or its first segment starts with a multi-byte character |
| `EvmKeyStore.CallKeepsInvExactly` | ipc/identity/src/evm/memory.rs:28-71 | a call keeps the invariant (keys are derived addresses; cached default if and only if sentinel entry, matching it, and itself stored) if and only if it does not name an existing sentinel entry |
| `EvmKeyStore.RunKeepsInv` | ipc/identity/src/evm/memory.rs:28-71 | it holds after every sequence of calls that do not name the sentinel |
| `EvmKeyStore.StoreRefinesView` | ipc/identity/src/evm/memory.rs:20-71 | every call answers and acts as on a plain map with a default beside it |
| `EvmKeyStore.KeyAfterCall` | ipc/identity/src/evm/memory.rs:28-55 | a put stores exactly its key under the derived address, a removal removes exactly its key, nothing else touches any key; calls are refused exactly when no address derives or the new default is not stored |
| `EvmKeyStore.DefaultLaws` | ipc/identity/src/evm/memory.rs:35-71 | removing the default clears both entries; a new default is answered next, also after the cache is lost |
| `EvmKeyStore.MemoryKeyStore.Get` | ipc/identity/src/evm/memory.rs:20-22 | for every address but the sentinel it is the lookup in the plain map that users see, and in a sound store the key found derives to the address asked for |
| `EvmKeyStore.MemoryKeyStore.Put` | ipc/identity/src/evm/memory.rs:28-33 | new state and answer are those of the specified call |
| `EvmKeyStore.MemoryKeyStore.Remove` | ipc/identity/src/evm/memory.rs:35-44 | the recursive removal terminates and has the specified effect |
| `EvmKeyStore.MemoryKeyStore.SetDefault` | ipc/identity/src/evm/memory.rs:46-55 | new state and answer are those of the specified call |
| `EvmKeyStore.MemoryKeyStore.GetDefault` | ipc/identity/src/evm/memory.rs:57-71 | new state and answer are those of the specified call |
| `EvmKeyStore.RecordsRoundTrip` | ipc/identity/src/evm/persistent.rs:125-138 | records written in any order read back as the map restricted to the keys written |
| `EvmKeyStore.ReopenGivesSameStore` | ipc/identity/src/evm/persistent.rs:91-190 | loading a written store gives the same keys and the same default, whatever the order |
| `EvmKeyStore.ReadAll` | ipc/identity/src/evm/persistent.rs:125-138 | fills the specified map, or fails at the first bad record |
| `EvmKeyStore.ReadRecordsExactly` | ipc/identity/src/evm/persistent.rs:125-138 | records are read if and only if the text of each decodes and it is the sentinel's or an address derives |
| `EvmKeyStore.RecordsBecomeEntries` | ipc/identity/src/evm/persistent.rs:125-138 | each record becomes the entry of its key unless a later one has the same key |
| `EvmKeyStore.EntriesComeFromRecords` | ipc/identity/src/evm/persistent.rs:125-138 | each entry comes from the last record with its key |
| `EvmKeyStore.LoadsExactly` | ipc/identity/src/evm/persistent.rs:91-155 | a missing file is an empty store, a damaged one is refused, and records load if and only if each is readable and an address derives from the last sentinel record, if any |
| `Bytes.HexDecodesExactly` | ipc/identity/src/evm/persistent.rs:128 | exactly the texts with an even number of hexadecimal digits decode |
| `Bytes.HexText` | ipc/identity/src/evm/persistent.rs:177 | two lower-case digits a byte, the high one first |
| `EvmKeyStore.PersistentKeyStore.Open` | ipc/identity/src/evm/persistent.rs:91-155 | opens exactly the loadable files, as the store they denote; a missing file as the empty store; a damaged one never |
| `EvmKeyStore.PersistentKeyStore.Flush` | ipc/identity/src/evm/persistent.rs:158-190 | writes each entry once in some order, and a sound store reopens from that as it is; a file that cannot be created stays, a broken write damages it |
| `EvmKeyStore.PersistentKeyStore.Put` | ipc/identity/src/evm/persistent.rs:67-71 | effect of the memory store whatever the disk does; its answer if and only if the write completes; soundness kept; on success the file reopens as the store in memory |
| `EvmKeyStore.PersistentKeyStore.Remove` | ipc/identity/src/evm/persistent.rs:73-76 | the same; soundness is lost if and only if an existing sentinel entry is named |
| `EvmKeyStore.PersistentKeyStore.SetDefault` | ipc/identity/src/evm/persistent.rs:78-81 | the same; soundness is lost if and only if an existing sentinel entry is named |
| `EvmKeyStore.PersistentKeyStore.GetDefault` | ipc/identity/src/evm/persistent.rs:83-87 | the same for the query, which also writes |
| `FvmKeyStore.ReadClear` | ipc/identity/src/fvm/keystore.rs:203-214 | fills the specified map, or fails at text that does not decode |
| `FvmKeyStore.RestoresExactly` | ipc/identity/src/fvm/keystore.rs:203-214 | clear text is restored if and only if every private key decodes |
| `FvmKeyStore.LastEntryWins` | ipc/identity/src/fvm/keystore.rs:203-214 | the key under a name is that of its last entry, type and decoded bytes |
| `FvmKeyStore.ClearReopens` | ipc/identity/src/fvm/keystore.rs:184-383 | a clear file reopens as the same keys, for every order of writing |
| `FvmKeyStore.DecryptUndoesEncrypt` | ipc/identity/src/fvm/keystore.rs:472-493 | ciphertext and trailing nonce split back exactly |
| `FvmKeyStore.SealedReopens` | ipc/identity/src/fvm/keystore.rs:239-364 | salt, ciphertext and nonce split back exactly: same keys, salt and encryption key for every salt, nonce and order |
| `FvmKeyStore.SealLayout` | ipc/identity/src/fvm/keystore.rs:352-362 | the file is the salt, the ciphertext under the derived key, and the nonce, at these positions |
| `FvmKeyStore.UnsealPanicsExactly` | ipc/identity/src/fvm/keystore.rs:278-292 | opening panics if and only if the file is non-empty and shorter than salt and nonce together |
| `FvmKeyStore.OpensExactly` | ipc/identity/src/fvm/keystore.rs:177-332 | opening fails if and only if a clear private key does not decode or an encrypted file of sufficient length does not decipher; a store that does not exist yet opens empty in its own mode, with the fresh salt |
| `FvmKeyStore.KeyStore.New` | ipc/identity/src/fvm/keystore.rs:177-332 | in each of the three modes opens exactly what the file denotes, fails or panics; when that silently drops contents is DropsContentsExactly |
| `FvmKeyStore.KeyStore.Reopen` | ipc/identity/src/fvm/keystore.rs:177-332 | opening what a successful call saved gives a store with the same keys in the same mode |
| `FvmKeyStore.KeyStore.Listing` | ipc/identity/src/fvm/keystore.rs:366-375 | visiting the map in any order lists every entry once |
| `FvmKeyStore.DropsContentsExactly` | ipc/identity/src/fvm/keystore.rs:192-299 | opening succeeds as empty although the file is not if and only if a clear file is there and is no key object, or an encrypted one deciphers to something that is no key map |
| `FvmKeyStore.FirstPutReplacesContents` | ipc/identity/src/fvm/keystore.rs:177-415 | after such an opening, one successful put leaves a file that reopens as that one key alone, in either form |
| `FvmKeyStore.KeyStore.Flush` | ipc/identity/src/fvm/keystore.rs:334-391 | succeeds if and only if there is nothing to write or the write completes; then the file reopens as the keys in memory; in memory-only mode nothing is written |
| `FvmKeyStore.KeyStore.Put` | ipc/identity/src/fvm/keystore.rs:404-415 | never overwrites; the map changes even if writing fails; success means the file reopens as the map |
| `FvmKeyStore.KeyStore.Remove` | ipc/identity/src/fvm/keystore.rs:418-426 | returns the removed key; the map changes even if writing fails; success means the file reopens as the map |
| `FvmWallet.CallKeepsInv` | ipc/identity/src/fvm/wallet.rs:72-160 | every call, with any outcome of each of its writes, keeps the store well-formed and the cache in agreement with the two-step lookup |
| `FvmWallet.RunKeepsInv` | ipc/identity/src/fvm/wallet.rs:72-160 | so does every sequence of calls on a new wallet over a well-formed store, failed writes included |
| `FvmWallet.FindKeyRefinesLookup` | ipc/identity/src/fvm/wallet.rs:72-88 | after any calls, failed writes included, the cached lookup answers as the stateless one, with the key of the address asked for |
| `FvmWallet.LookupFindsTheKey` | ipc/identity/src/fvm/wallet.rs:76-84 | in a well-formed store a key under either name of an address is found, and is the key of that address |
| `FvmWallet.FindKeyCaches` | ipc/identity/src/fvm/wallet.rs:72-88 | a key looked up is answered from the cache from then on; nothing else changes |
| `FvmWallet.GenerateTakesEffect` | ipc/identity/src/fvm/wallet.rs:147-160 | a generated key is found under its address and there is a default afterwards: the new key if there was none, else the old one |
| `FvmWallet.ImportTakesEffect` | ipc/identity/src/fvm/wallet.rs:106-111 | an imported key is found under its address; the default is as before |
| `FvmWallet.AnswersExactly` | ipc/identity/src/fvm/wallet.rs:72-160 | for every call: refused if and only if no key derives, the name is taken, or what it asks for is not stored; unsaved if and only if a write it needs fails |
| `FvmWallet.OtherEntriesStay` | ipc/identity/src/fvm/wallet.rs:72-160 | every entry a call is not about stays as it is, and so does everything in the cache |
| `FvmWallet.SetDefaultTakesEffect` | ipc/identity/src/fvm/wallet.rs:125-143 | a default that was set is the one returned, and every other entry is untouched |
| `FvmWallet.OnlySetDefaultChangesDefault` | ipc/identity/src/fvm/wallet.rs:72-160 | no other call changes a default once there is one |
| `FvmWallet.DefaultLostExactly` | ipc/identity/src/fvm/wallet.rs:132-143 | a call of any kind loses the default if and only if it sets one to a stored address and its first write fails; it then reports an error and the next query finds no default |
| `FvmWallet.OneFailedWriteLosesDefault` | ipc/identity/src/fvm/wallet.rs:132-143 | the loss happens: in any wallet on disk with a default and a stored key, one failed write turns the default into an error |
| `FvmWallet.RemoveForgetsNothing` | ipc/identity/src/fvm/wallet.rs:119-122 | fails if and only if there is no entry under the bare address; every key found before is found after |
| `FvmWallet.Wallet.FindKey` | ipc/identity/src/fvm/wallet.rs:72-88 | new state and answer are those of the specified call |
| `FvmWallet.Wallet.Import` | ipc/identity/src/fvm/wallet.rs:106-111 | new state and answer are those of the specified call with this outcome of the write, none being needed in memory mode; success is saved |
| `FvmWallet.Wallet.Remove` | ipc/identity/src/fvm/wallet.rs:119-122 | the same for the bare address |
| `FvmWallet.Wallet.GetDefault` | ipc/identity/src/fvm/wallet.rs:125-129 | the address of the default entry, changing nothing |
| `FvmWallet.Wallet.SetDefault` | ipc/identity/src/fvm/wallet.rs:132-143 | new state and answer are those of the specified call for every outcome of its two writes; success is saved |
| `FvmWallet.Wallet.GenerateAddr` | ipc/identity/src/fvm/wallet.rs:147-160 | new state and answer are those of the specified call for every outcome of its two writes; success is saved |
| `Conversions.HeightSurvives` | ipc/sdk/src/evm.rs:156-186 | u64 to i64 and back is the identity, and below 2^63 each way is |
| `Conversions.SelectorSurvives` | ipc/sdk/src/evm.rs:81-124 | four selector bytes survive as a number |
| `Conversions.AmountSurvives` | ipc/sdk/src/evm.rs:227-230 | every 256-bit amount survives both ways through decimal text |
| `Conversions.AmountFitsExactly` | ipc/sdk/src/evm.rs:227-230 | any amount converts to a contract if and only if it is not negative and fits 256 bits |
| `Conversions.PayloadExactly` | ipc/sdk/src/evm.rs:216-224 | only the first twenty bytes of a delegated address count, whatever its namespace; others are errors, shorter ones panic |
| `Conversions.AddressesThereAndBack` | ipc/sdk/src/evm.rs:205-224 | a list of contract addresses converts both ways if and only if all take f410 form, and then unchanged |
| `Conversions.SubnetThereAndBack` | ipc/sdk/src/evm.rs:28-54 | the same for subnet ids |
| `Conversions.IpcAddressThereAndBack` | ipc/sdk/src/evm.rs:60-80 | the same for IPC addresses |
| `Conversions.OneMsgThereAndBack` | ipc/sdk/src/evm.rs:81-151 | the same for cross-net messages, all fields |
| `Conversions.CheckpointThereAndBack` | ipc/sdk/src/evm.rs:156-186 | the same for checkpoints, all fields |
| `Conversions.ContractIsLastOfRoute` | ipc/provider/src/manager/evm/manager.rs:1318-1325 | the contract called is the last address of the route as the child reported it; the root has none |
| `Conversions.RelayIsTransparent` | ipc/provider/src/manager/evm/manager.rs:974-1089 | arguments are built if and only if the bundle is relayable, and then equal what the child's gateway returned |
| `Conversions.MethodSurvivesExactly` | ipc/sdk/src/evm.rs:103-118 | a method number survives the way to a contract and back if and only if it fits 32 bits |
| `GenesisBalances.IntoGenesisBalanceMap` | ipc/provider/src/manager/evm/manager.rs:1305-1314 | builds the specified map from the pairs up to the shorter list, or fails at the first bad address |
| `GenesisBalances.PairCount` | ipc/provider/src/manager/evm/manager.rs:1310 | pairs go exactly to the end of the shorter list |
| `GenesisBalances.BuiltExactly` | ipc/provider/src/manager/evm/manager.rs:1305-1314 | the map is built if and only if every paired address converts |
| `GenesisBalances.LastPairWins` | ipc/provider/src/manager/evm/manager.rs:1305-1314 | every paired address has the balance of its last pair |
| `GenesisBalances.MapHoldsOnlyPairs` | ipc/provider/src/manager/evm/manager.rs:1305-1314 | the map holds no address that was not paired |
| `GenesisBalances.BalancesConserved` | ipc/provider/src/manager/evm/manager.rs:1305-1314 | with distinct addresses the values of the map sum to the paired balances |
| `PortAllocator.StepKeepsInv` | ipc/testing/itest/src/infra/mod.rs:110-121 | loads and exchanges by any thread keep counter, draws and loaded values in step |
| `PortAllocator.PortsAreConsecutive` | ipc/testing/itest/src/infra/mod.rs:110-121 | in every interleaving the ports are the consecutive ones from the initial counter plus the base port; they are distinct if and only if no more were drawn than there are ports |
| `PortAllocator.FailureMeansProgress` | ipc/testing/itest/src/infra/mod.rs:110-121 | an exchange fails only if another thread's succeeded since the load |

## Left out

- RelayerPass.Relayer.Run: makes a given number of passes, not endlessly many, and nobody else acts in the middle of a pass; interleaving inside passes is covered by RelayerProtocol and ConcurrentCatchUp.
- RelayerPass.Relayer.SubmitCheckpoint: catch-up is stated for ordered, timely quorums; what happens otherwise is RelayerPass.ScanSucceedsExactly and the wedge in its own contract.
- RelayerProtocol.AcceptedLogIsSafe: epochs are unbounded integers, so overflow of 64-bit heights in `last + period` is not modelled.
- FeeEstimation.EstimatePriorityFee: reports overflow of 256-bit arithmetic as an outcome; whether the library panics or wraps there is not modelled.
- EvmKeyStore.PersistentKeyStore.Flush: an error that a buffered writer swallows when it is dropped is not modelled; the same holds for FvmKeyStore.KeyStore.Flush.
- FvmKeyStore.KeyStore.New: reading a file always works, and a directory or empty file that has to be created is created; a nonce and a salt are any bytes of the right length.
- PortAllocator.PortsAreConsecutive: additions wrap as in release builds; a build with overflow checks panics at the first wrap.
- Storage of keys in classes is by value: two handles on the same file, or on the same key map, are not modelled.
- Signatures travel with a bundle as an opaque value; the parent's check of them is inside the assumption about what it accepts.
- JSON-RPC, WebSocket and Lotus clients, contract calls, gas and receipts beyond what the relayer reads of them.
- Command line handlers, logging, configuration files and their reloading, the SDK's gateway and staking records.
- `Wallet::{sign, export, list_addrs, new_from_keys, has_key}` and the free lookup functions: one call around what is modelled.
- `SubnetID::chain_id`, `f64_to_token_amount`, `f0_id`: a hash, floating point, and a call into the chain state.
