# A verified model of one chain node

The repository is a small blockchain node: a runtime of three pallets (System, Balances,
Proof-of-Existence) that writes through to a key-value store, a mempool, slot-by-slot block production,
a peer list that decides who authors each slot, and SCALE bytes on the wire and on disk. This project
models that node as a persistent, replicated state machine in Dafny and proves what it keeps.

## How it is built

| file | what it holds |
|---|---|
| Types.dfy | bytes, bounded integers, UTF-8 text, calls, extrinsics, blocks, the pallets' maps, the order of text |
| Text.dfy | which byte strings are text |
| ScaleNumbers.dfy, Scale.dfy | the SCALE codecs of integers and lengths, and of the wire types, each with its exactness |
| Storage.dfy, StorageKeys.dfy | the store as entries and ordered writes; the bytes that represent it |
| Layout.dfy | the bytes themselves: where each field and each key stands |
| RuntimeSpec.dfy | the specification of `execute_block`, genesis, processes and crashes, with the log of writes |
| Nonces.dfy | replay protection, fully accepted blocks, two passes against one, which blocks panic |
| Signatures.dfy | what is verified, and what a signature cannot be used for |
| Durability.dfy | memory against store, restart simulation, at-most-once execution |
| Supply.dfy, GenesisProofs.dfy, Claims.dfy | token accounting, genesis under crashes, which claims are persisted |
| Crashes.dfy | exactly what a crash leaves: the ledger, the shortfall of the supply, the claims |
| Pallets.dfy, RuntimeImpl.dfy | the store, the pallets and the runtime as objects, proved against RuntimeSpec |
| Mempool.dfy, Sorting.dfy, Batch.dfy, Peers.dfy | the queue, stable sorting by a key, the selection of candidates, the peer list and authorship |
| Node.dfy, NodeImpl.dfy | the steps of the event loop as values, and the node as an object |
| Network.dfy | several nodes with their databases in lockstep slots, with restarts in between |

The specification of the runtime is a function from a state to an `Exec`: the state reached, the writes
made in order, one receipt for each extrinsic looked at, and how it ended. It is total: the `unwrap` on a
height or a nonce already at its maximum ends it as `Panicked`. A crash keeps a prefix of the writes
(`Kept`), the next process starts from `Load` of what is left, and `Survives` iterates this. Each write
carries the (signer, nonce) whose call made it, which is how "at most once" is stated.

The nondeterminism of `produce_block`, which walks a hash map, is the predicate `Batch.IsBatch`: it fixes
what each signer contributes and in what order, and leaves the interleaving free. What is proved of a batch
holds of every order of the map.

## Assumptions

- Store writes succeed, and a crash keeps a prefix of them.
- Ed25519 (section 5.1.7 of RFC 8032) is two arbitrary pure predicates in `Crypto`: whether a key is valid,
  and whether it verifies a signature over some bytes. Those bytes are the modelled ones.
- Each handler of the event loop is one atomic step, and the application task is the only writer.
- In Network, a slot's block reaches every other node once, before the next slot, and nodes restart between
  slots.
- Slot numbers are inputs. Peer identifiers are integers, since only their total order matters.

## Where the code and what is said of it part

- The repository's README says state survives restarts. Heights, nonces and balances do
  (`RestartSimulates`). Claims need not: `create_claim` writes the greatest claim of the map, whichever one it
  was given. `SmallerClaimIsLost` is an input that loses one; `SmallerClaimSavedLater` is one where a claim
  first left out is stored by a later create of another. The rule for any run is `ClaimSaved`: a claim is in
  the store if and only if it was there at the start, or some successful create, its own or a later one of
  another claim, found it to be the greatest held, and it was not revoked since. So a restart brings the whole
  state back if and only if that is so of every claim held (`RestartIsExact`); directly after a create, the
  new claim is stored if and only if it sorts after all held before (`CreatePersists`). `ClaimsThatSurvive` is
  the rule for the whole life of a store, with crashes at any writes.
- The repository's README gives storage keys `balances:balance:<account>` and `poe:claim:<content>`; the
  code writes `balances:<account>` and `poe:<content>`. The model follows the code.
- A transfer to oneself adds its amount to the supply, because both balances are read first
  (`SelfTransferMints`). `SupplyExactly` says by how much the supply of any run changes.
- A comment says stale nonces are dropped. One stale candidate drops every candidate of its signer
  (`StaleSilencesSigner`), and they do not go back to the mempool; `IncludedExactly` is the whole rule.
- A rejected block raises and persists the height (`RejectedExactly`).
- A comment says that eviction removes what a peer block already included so that it is not produced again.
  It goes by the block's contents and not by what was accepted: a badly signed extrinsic with the signer and
  nonce of a pending one makes the pending one vanish without running (`BadCopyEvicts`, `BadCopyExists`). On a
  queue without stale entries it removes exactly what has run if and only if the block carries, for every
  pending extrinsic it names, validly signed extrinsics of that signer in order, with every nonce from the
  runtime's up to that one, which is the rule for what any block accepts (`AcceptedExactly`). On any queue the
  block must also name the stale entries (`EvictionExactly`).
- A crash between the two writes of a transfer loses its amount: the debit is durable and the credit is not.
  `LivesTotalExactly` shows that nothing else is ever lost.

## Model

| member | source | states |
|---|---|---|
| ScaleNumbers.LERoundTrip | src/support.rs:61 | little-endian integers of any width decode to what was encoded |
| Types.LexLessExactly | src/proof_of_existence.rs:57 | one text is before another if and only if it is a proper prefix of it or has the smaller byte where they first differ |
| Text.Utf8Exactly | src/lib.rs:16 | bytes are text if and only if they are the one- to four-byte forms of some sequence of Unicode scalar values |
| ScaleNumbers.CompactRoundTrip | src/support.rs:47 | a compact length decodes to itself across all four modes, leaving the rest untouched |
| ScaleNumbers.CompactCanonical | src/support.rs:47 | every accepted compact length is the one encoding of its value |
| Scale.ContentRoundTrip | src/lib.rs:16 | strings come back, with the rest |
| Scale.ContentCanonical | src/lib.rs:16 | only valid UTF-8 under its canonical length is accepted as a string |
| Scale.CallRoundTrip | macros/src/runtime/expand.rs:83-85 | nested call enums come back by pallet and function index |
| Scale.CallCanonical | macros/src/call/expand.rs:34-38 | bytes accepted as a call are exactly its encoding followed by the rest |
| Scale.ExtrinsicRoundTrip | src/support.rs:55-63 | an extrinsic comes back field by field, with the rest |
| Scale.ExtrinsicCanonical | src/support.rs:55-63 | bytes accepted as an extrinsic are exactly its encoding followed by the rest |
| Scale.PayloadInjective | src/support.rs:69-79 | signer, nonce and call are all bound by the signed bytes: equal payloads mean equal fields |
| Scale.BlockRoundTrip | src/support.rs:44-53 | any block followed by any bytes decodes to that block and exactly those bytes |
| Scale.BlockCanonical | src/support.rs:44-53 | bytes accepted as a block are exactly its encoding followed by the rest |
| Scale.BlockDecodesExactly | src/support.rs:44-53 | decoding a block is the inverse of encoding it, as an if and only if |
| Layout.LEDigits | src/support.rs:61 | byte i of a little-endian integer is its digit of weight 256 to the i |
| Layout.U32Bytes | src/support.rs:61 | the four bytes of a 32-bit number, lowest first |
| Layout.CompactBytes | src/support.rs:47 | the bytes of a length in each of the four modes |
| Layout.CallBytes | macros/src/runtime/expand.rs:83-85 | pallet index and function index by value, then the arguments: transfer 0, 0; create 1, 0; revoke 1, 1 |
| Layout.ExtrinsicBytes | src/support.rs:55-79 | signer, signature, nonce and call at their offsets; what is signed is the same bytes without the signature |
| Layout.BlockBytes | src/support.rs:44-53 | block number, count and extrinsics at their offsets |
| Layout.KeyBytes | src/system.rs:7-8 | the storage keys byte by byte |
| Layout.WriteBytes | src/system.rs:55-74 | the bytes written under each key |
| StorageKeys.ScansSeparate | src/support.rs:193-201 | a scan of one pallet's prefix meets that pallet's keys and no others |
| StorageKeys.KeysDistinct | src/balances.rs:41-45 | distinct entries have distinct keys over all pallets |
| StorageKeys.WriteRepresents | src/proof_of_existence.rs:37-41 | one byte-level write changes exactly the entry it is about |
| StorageKeys.ReplayRepresents | src/support.rs:183-191 | replaying writes commutes with encoding them, so crash results on entries hold on bytes |
| StorageKeys.LoadsNonces | src/system.rs:31-42 | the nonce scan reloads exactly the stored nonces |
| StorageKeys.LoadsBalances | src/balances.rs:26-36 | the balance scan reloads exactly the stored balances |
| StorageKeys.LoadsClaims | src/proof_of_existence.rs:22-32 | the claim scan reloads exactly the stored claims |
| StorageKeys.LoadedOnce | src/balances.rs:26-36 | whatever the bytes, also ones the program never writes, the loop of every `new` has one result |
| StorageKeys.LoadsExactly | macros/src/runtime/expand.rs:17-25 | `Runtime::new` on bytes finds exactly the entries they represent |
| StorageKeys.LoadedStateOnce | macros/src/runtime/expand.rs:17-25 | `Runtime::new` on any bytes has one result |
| Nonces.RejectedExactly | macros/src/runtime/expand.rs:34-37 | a block is rejected if and only if its number is not the next; then only the height changes, in memory and store |
| Nonces.BlockNonces | macros/src/runtime/expand.rs:54-62 | what one block accepts follows each signer's nonce |
| Nonces.NoncesExact | src/system.rs:55-74 | over any run each signer's accepted nonces are n0, n0+1, …, the final nonce is n0 plus their number, the height counts all calls |
| Nonces.NeverAcceptedTwice | macros/src/runtime/expand.rs:54-62 | no (signer, nonce) is accepted twice in a run |
| Nonces.LoopAcceptsAll | macros/src/runtime/expand.rs:43-69 | pass 2 accepts everything if and only if signatures are valid and each signer's nonces are gap-free, for any interleaving |
| Nonces.BlockAcceptsAll | macros/src/runtime/expand.rs:33-71 | the same for a whole block, which then ends in Ok with every nonce advanced by its signer's share |
| Nonces.AcceptedExactly | macros/src/runtime/expand.rs:33-71 | for any block that is not rejected: nonce k of a signer is accepted, and the signer's nonce passes k, if and only if the block holds in order validly signed extrinsics of the signer with every nonce from the runtime's up to k, whatever else it holds |
| Nonces.SplitIrrelevant | src/support.rs:99-105 | any division of the signature pass among workers gives the results in order |
| Nonces.TwoPassesRefineOne | macros/src/runtime/expand.rs:39-69 | verifying all first and executing after equals verifying each just before its own nonce check |
| Nonces.FailureTouchesOnlyTheNonce | macros/src/runtime/expand.rs:62-68 | a failed call changes its signer's nonce and nothing else; a skipped extrinsic changes nothing |
| Nonces.PanicsExactly | src/system.rs:55-74 | a block panics if and only if the height is at its maximum, or its number is the next and it holds a validly signed extrinsic of the greatest nonce whose signer the extrinsics before it take there |
| Signatures.VerifyExactly | src/support.rs:69-81 | an extrinsic verifies if and only if its key is valid and verifies its signature over bytes that parse to exactly its signer, nonce and call; an invalid key is reported first |
| Signatures.RunVerifies | macros/src/runtime/expand.rs:40-62 | over any run whatever is accepted is validly signed |
| Signatures.SignatureNotReused | src/support.rs:69-81 | a signature over one payload lets no extrinsic with another signer, nonce or call run, in any run of blocks |
| Durability.RunSynced | src/system.rs:55-74 | in every reachable state the store holds height, nonces and balances exactly and a submap of the claims |
| Durability.RunSame | src/proof_of_existence.rs:51-79 | runs from states that differ only in claims stay equal in height, nonces and balances |
| Durability.RestartSimulates | src/balances.rs:22-39 | clean restarts placed anywhere between blocks change nothing of height, nonces and balances |
| Durability.StepOrderly | macros/src/runtime/expand.rs:62-63 | the nonce write precedes the call's writes |
| Durability.ProcessOrderly | macros/src/runtime/expand.rs:33-71 | the whole log of a process obeys the discipline that at-most-once rests on |
| Durability.HistoryOrderly | src/system.rs:23-45 | so does the life of a store through any number of crashes and restarts |
| Durability.AtMostOnce | macros/src/runtime/expand.rs:33-71 | all durable effects of one (signer, nonce) form one stretch with no other write and no restart inside, over any crashes |
| Durability.NonceBeforeEffects | src/system.rs:63-74 | every durable effect is preceded, in its incarnation, by the write that spends its nonce |
| Supply.TransferExactly | src/balances.rs:64-81 | when a transfer succeeds, what every account then holds, and its effect on the total, which stays the same unless a positive amount within the balance goes to oneself without overflow |
| Supply.TransferRefused | src/balances.rs:71-75 | a refused transfer changes nothing, and says which of the two reasons it was |
| Supply.SupplyExactly | src/balances.rs:64-81 | over any run the supply changes by the sum of successful self-transfers; conserved if and only if that is 0 |
| Supply.LoopReceipts | macros/src/runtime/expand.rs:43-69 | each extrinsic up to a panic has one receipt, in order |
| Supply.SelfTransferMints | src/balances.rs:70-78 | concrete counterexample to conservation |
| Supply.DispatchNeverOverflows | src/balances.rs:75 | a transfer between two accounts cannot overflow while the total fits |
| Supply.OverflowUnreachable | src/balances.rs:75 | in no run without self-transfers does the overflow branch run, and the supply is constant |
| Supply.BoundaryExact | src/balances.rs:47-55 | at block boundaries the store holds the starting total plus what self-transfers added |
| GenesisProofs.GenesisLog | src/lib.rs:43-55 | at height 0 genesis always succeeds, funds three accounts with 1,000,000 each, in this order, and executes block 1 |
| GenesisProofs.GenesisCut | src/lib.rs:43-55 | a cut genesis will be retried; an uncut one always leaves the same database |
| GenesisProofs.GenesisConverges | src/lib.rs:43-55 | any attempts from an empty database end in the same database, if and only if one of them was not cut; later start-ups write nothing |
| GenesisProofs.SupplyFromNothing | src/lib.rs:43-55 | from an empty database, with crashes anywhere, the persisted supply never exceeds three endowments |
| Claims.CreatePersists | src/proof_of_existence.rs:51-65 | directly after a create the greatest claim is persisted with its owner; the new one if and only if it sorts after all held |
| Claims.NoSecondCreate | src/proof_of_existence.rs:52-54 | a create succeeds if and only if nobody holds the claim; else it changes nothing |
| Claims.GreaterIsPersisted | src/proof_of_existence.rs:57-61 | of two claims, made in either order, the one is written that the other is a proper prefix of, or that has the greater byte where they first differ |
| Claims.RevokeExactly | src/proof_of_existence.rs:67-79 | only the owner can revoke, and then the claim is gone from memory and store and no other is touched |
| Claims.ClaimSaved | src/proof_of_existence.rs:51-79 | after any run a claim is in the store if and only if it was there before, or some successful create found it the greatest held, and no revoke of it came after |
| Claims.RestartIsExact | src/proof_of_existence.rs:18-35 | a restart after any run brings back the whole state if and only if every claim held was saved in that sense |
| Claims.SmallerClaimSavedLater | src/proof_of_existence.rs:57-61 | a claim not stored when made is stored by a later create of a smaller one, and such a run can lose nothing |
| Claims.SmallerClaimIsLost | src/proof_of_existence.rs:57-61 | with "b" held and stored, "a" is created and a restart forgets it |
| Claims.AscendingRunIsExact | src/proof_of_existence.rs:51-79 | over runs of ascending new claims a restart brings back the whole state |
| Crashes.RunCut | macros/src/runtime/expand.rs:33-71 | wherever the writes of a run are cut, what is durable is all that some whole blocks and the first extrinsics of the next write, and of one further extrinsic a proper prefix of its own writes |
| Crashes.TransferPart | src/balances.rs:77-78 | a transfer cut between its writes leaves the debit alone |
| Crashes.CrashLeaves | src/system.rs:23-45 | at such a cut a reload finds height, nonces and balances as after that input and then the nonce, or the nonce and the debit, of the interrupted extrinsic, and the claims that input had saved |
| Crashes.TotalAfterCrash | src/balances.rs:77-78 | the persisted supply is the starting one, plus completed self-transfers, less the amount of a transfer caught between debit and credit, and nothing else |
| Crashes.LivesTotalExactly | src/balances.rs:47-81 | the same equality over any succession of crashing processes |
| Crashes.RunCapped | src/balances.rs:47-55 | at every prefix of a run's writes, without self-transfers, the persisted total is within the starting one |
| Crashes.CrashesNeverMint | src/balances.rs:47-81 | without self-transfers repeated crashes at any writes never raise the persisted total |
| Crashes.LifeClaims | src/proof_of_existence.rs:18-79 | after one process that dies anywhere, genesis included, which claims are on disk |
| Crashes.OnDiskExactly | src/proof_of_existence.rs:51-79 | the step-by-step account of the disk is the rule of the next row, for any calls |
| Crashes.ClaimsThatSurvive | src/proof_of_existence.rs:18-79 | over the whole life of a store: a claim is there if and only if it was at the start, or some create that got through found it the greatest in memory, and no revoke that got through came after, in that process or a later one |
| Pallets.KvStore.Put | src/support.rs:183-186 | the data changes at one key, and the write is logged |
| Pallets.KvStore.Delete | src/support.rs:188-191 | the key is gone, and the write is logged |
| Pallets.KvStore.ScanPrefix | src/support.rs:193-201 | every pair with the prefix, each once, no other, in the byte order of the keys (`LexLessExactly`) |
| Pallets.LoadMap | src/balances.rs:26-36 | the loop of every `new` yields a binding for each decodable entry of the scan and no other; of several for one account the last in key order counts |
| Pallets.SystemPallet.New | src/system.rs:23-45 | height and nonces are those read from the store |
| Pallets.SystemPallet.IncBlockNumber | src/system.rs:55-61 | height plus one in memory and store, or the overflow panic |
| Pallets.SystemPallet.IncNonce | src/system.rs:63-74 | one nonce plus one in memory and store, or the overflow panic |
| Pallets.BalancesPallet.New | src/balances.rs:22-39 | balances are those read from the store |
| Pallets.BalancesPallet.SetBalance | src/balances.rs:47-55 | one balance in memory and store |
| Pallets.BalancesPallet.Transfer | src/balances.rs:64-81 | result, balances and writes are those of the specified transfer |
| Pallets.PoePallet.New | src/proof_of_existence.rs:18-35 | claims are those read from the store |
| Pallets.PoePallet.LastClaim | src/proof_of_existence.rs:57 | the greatest key of the map in byte order (`LexLessExactly`) |
| Pallets.PoePallet.CreateClaim | src/proof_of_existence.rs:51-65 | result, claims and writes are those of the specified create |
| Pallets.PoePallet.RevokeClaim | src/proof_of_existence.rs:67-79 | result, claims and writes are those of the specified revoke |
| RuntimeImpl.Runtime.New | macros/src/runtime/expand.rs:17-25 | the state is loaded from the bytes, and equals the entries they represent |
| RuntimeImpl.Runtime.Dispatch | macros/src/runtime/expand.rs:95-110 | routes each call to its pallet, with the specified state, result and writes |
| RuntimeImpl.Runtime.ApplyExtrinsic | macros/src/runtime/expand.rs:43-69 | one turn of the loop is the specified step |
| RuntimeImpl.Runtime.ApplyAll | macros/src/runtime/expand.rs:43-69 | the loop is the specified pass 2, panics included |
| RuntimeImpl.Runtime.ExecuteBlock | macros/src/runtime/expand.rs:33-71 | the object executes a block exactly as specified, down to the bytes written and their order |
| RuntimeImpl.Runtime.MaybeApplyGenesis | src/lib.rs:43-55 | the object applies genesis exactly as specified |
| RuntimeImpl.BytesFollowSpec | macros/src/runtime/expand.rs:17-25 | the bytes after any blocks reload to the specified store: the ledger exactly, claims soundly |
| RuntimeImpl.CrashesOnBytes | src/system.rs:23-45 | after any crashes at any byte-level writes, `Runtime::new` brings back exactly what the specification says survives |
| RuntimeImpl.CrashesFromNothing | src/lib.rs:43-55 | from an empty database, whatever crashes, `Runtime::new` finds exactly what survived and, without self-transfers, never more than three endowments |
| Mempool.Mempool.Submit | src/support.rs:256-264 | appends, or refuses at capacity |
| Mempool.Mempool.DrainForBlock | src/support.rs:267-276 | splits the queue in two, the drained part first: n of them, or all when there are fewer |
| Mempool.Mempool.Remove | src/support.rs:279-281 | removes one by index, or nothing |
| Mempool.Mempool.Retain | src/support.rs:293-298 | keeps exactly the matching ones, in order |
| Mempool.PoolConserves | src/support.rs:256-298 | over any operations: accepted = pending + drained + removed + evicted, drained leave in submission order, capacity holds |
| Batch.SortSorts | src/node.rs:330 | the sort orders by nonce and loses nothing |
| Batch.SortIsStable | src/node.rs:330 | equal nonces keep their queue order |
| Batch.RunIsLongest | src/node.rs:331-339 | a signer's run is the longest prefix counting up from the runtime nonce |
| Batch.BatchWithinCandidates | src/node.rs:321-342 | the batch is a sub-multiset of the candidates |
| Batch.BatchAccepted | src/node.rs:344-361 | a block of any batch, in any order of signers, is accepted in full when its signatures are valid |
| Batch.IncludedExactly | src/node.rs:321-342 | for any candidates, a nonce is included if and only if none is stale, all before it are present once, and it is present |
| Batch.StaleSilencesSigner | src/node.rs:336-338 | one stale candidate keeps all of its signer's out |
| Batch.FirstCopyTaken | src/node.rs:325-335 | of several candidates with one signer and nonce the earliest is taken |
| Batch.HonestAllTaken | src/node.rs:321-342 | candidates that count up from the runtime nonces are all taken |
| Peers.ChangedExactly | src/node.rs:278-289 | a connection adds one entry, a disconnection drops all of a peer's, and the list stays sorted |
| Peers.ListKept | src/node.rs:158-158 | the list stays sorted and holds the node itself |
| Peers.AuthorsAgree | src/node.rs:46-50 | nodes that know the same peers have equal lists and name the same author |
| Peers.SlotsAreTaken | src/node.rs:46-50 | with at least two peers every slot is somebody's; alone a node never has one |
| Peers.AuthorByRemainder | src/node.rs:46-50 | the author of a slot is the entry at the slot's remainder |
| Peers.FairTurns | src/node.rs:46-50 | any full window of slots gives each peer as many turns as it has entries |
| Node.SubmitKeeps | src/node.rs:98-106 | an extrinsic with the quoted nonce keeps the queue honest |
| Node.OwnBlockKeeps | src/node.rs:307-365 | on an honest queue the own block holds exactly what was drained, all of it is accepted, and the rest is honest |
| Node.SlotsDrain | src/node.rs:307-365 | on an honest queue each own slot moves three extrinsics, or what is left, from the front into an accepted block |
| Node.AllRunInTime | src/node.rs:307-365 | an honest queue of n extrinsics has been accepted, all of it, after n/3 own slots, rounded up |
| Node.EvictionExactly | src/node.rs:232-236 | for any pool and any block not rejected: eviction leaves exactly what has not run if and only if the block, which may hold anything, reaches every pending extrinsic it names with validly signed, gap-free nonces (and names those already stale) |
| Node.BadCopyEvicts | src/node.rs:217-235 | a badly signed copy in a block that is not rejected evicts a pending extrinsic that never ran |
| Node.BadCopyExists | src/node.rs:217-235 | there is such an input in any state |
| Node.PeerBlockKeeps | src/node.rs:215-237 | a fully accepted peer block with eviction keeps the queue honest and removes exactly what has run |
| Node.RejectedKeeps | src/node.rs:226-236 | a rejected peer block raises the height and changes nothing else, the queue included |
| Node.RunInOrder | src/node.rs:207-252 | the queue invariant and the account of accepted extrinsics hold in every reachable state, rejected peer blocks among the steps |
| Node.RunAccounted | src/node.rs:207-252 | submitted extrinsics never share signer and nonce, and what is accepted was submitted or came in a peer's block, whatever blocks were rejected in between |
| Node.NothingLostNothingTwice | src/node.rs:207-252 | each extrinsic ever submitted is pending, or accepted once, or displaced by a different one of its signer and nonce that was accepted from a peer's block, and only one of these; without such conflicts it is not pending if and only if it was accepted |
| NodeImpl.NodeApp.Boot | src/node.rs:145-158 | on any bytes a node starts on the state that `Runtime::new` loads from them, with genesis applied if due, an empty mempool and itself as only peer; on bytes that represent a store that is the store's state |
| NodeImpl.NodeApp.QuoteNonce | src/node.rs:98-106 | the runtime nonce plus the account's pending extrinsics, as a 32-bit sum |
| NodeImpl.NodeApp.OnExtrinsic | src/node.rs:209-213 | the extrinsic joins the queue unchecked |
| NodeImpl.NodeApp.OnPeerBlock | src/node.rs:215-237 | the block is executed; if it ended in Ok exactly the pending extrinsics it names go, else all stay |
| NodeImpl.NodeApp.OnBlockMessage | src/node.rs:266-276 | bytes that decode are handled as the block they stand for; others change nothing |
| NodeImpl.NodeApp.OnConnected | src/node.rs:278-282 | the list gains the peer and is sorted |
| NodeImpl.NodeApp.OnDisconnected | src/node.rs:285-288 | the list loses the peer |
| NodeImpl.NodeApp.OnTick | src/node.rs:239-251 | the node produces if and only if it has company and stands at the slot's remainder in the list; else nothing happens and nothing is sent |
| NodeImpl.NodeApp.ProduceBlock | src/node.rs:307-365 | drains three, selects a batch and executes it; bytes go out if and only if there was a next number and the block ended in Ok, and they decode to that very block |
| NodeImpl.SentIsAccepted | src/node.rs:344-361 | what one node's object sends, another with the same ledger accepts, ending with the sender's ledger |
| NodeImpl.GroupBySigner | src/node.rs:323-327 | each signer's candidates in queue order |
| NodeImpl.TakeRun | src/node.rs:331-339 | the loop with its break computes the signer's run |
| NodeImpl.BuildBatch | src/node.rs:321-342 | whatever order the map yields signers in, the result is a batch |
| Network.DeliveredIntact | src/node.rs:266-276 | a peer with the same ledger executes, from the bytes, the very block the author executed, does not reject it and ends with the author's ledger |
| Network.SlotHasAuthor | src/node.rs:239-251 | when all know exactly each other, two nodes or more, every slot has one author and no more |
| Network.SlotAgrees | src/node.rs:239-251 | a slot has one author, no other node rejects its block, and all ledgers and databases are in step after, all runtimes equal if they were |
| Network.RestartSound | src/node.rs:145-158 | a restart writes nothing and brings back height, nonces and balances, and a submap of the claims |
| Network.ReplicasAgree | src/node.rs:207-252 | over any run of submissions, reconnections, restarts and slots all heights, nonces and balances stay equal and no block is rejected; until the first restart the claims are equal too |
| Network.StartedInSync | src/node.rs:145-158 | nodes started on empty databases, or ones that crashed attempts at genesis left, begin in sync with equal runtimes |

## Left out

- NodeImpl.NodeApp.QuoteNonce: wraps on overflow as a release build does; a debug build panics. One atomic step here, two locks in the source, and extrinsics still in the channel are not seen by either.
- Batch.RunIsLongest: the `+= 1` on the expected nonce wraps as in a release build, which is proved unobservable; the panic of a debug build is not modelled.
- Scale.BlockDecodesExactly: the decoder's memory limits are not modelled.
- Panics: a process that hits an `unwrap` is taken to stop there; that a tokio task can die while the rest of the process lives is not modelled.
- Ed25519 itself, the keyring seeds (three accounts are parameters) and the wall clock.
- RocksDB internals and failing writes, which the source logs and ignores.
- Crashes of one replica inside a slot: a node that missed part of a block has another ledger from then on, and the repository has no catching up. Durability and RuntimeImpl treat crashes of one node.
- libp2p, gossipsub, the HTTP server, channels and locks; delivery is an assumption.
- The standard library's sorts, taken to be the stable sort of Sorting.dfy.
- Rayon's scheduling beyond its order-preserving result.
- The command line and the demo, whose one-shot path bypasses genesis.
- The macros' parsing of Rust syntax; the code they generate for the three pallets is modelled.
- Printing and debug formatting.
