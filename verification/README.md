# nxcc node: a verified model

A Dafny model of the parts of the nxcc node whose correctness depends on several functions agreeing, with proofs.
`dafny verify dfyconfig.toml` checks everything.

| component | files | main results |
|---|---|---|
| Secret replication: enclaves | `SealedBox`, `Enclave`, `AuthorizationIds`, `Replication`, `Provenance`, `Gossip` | `PutExactly`, `EveryEntryVouched`, `SealedProvenance`, `WorkerProvenance`, `SealThenPut`, `MergeOrderIrrelevant`, `GossipSpreadsNewest`, `HeldArose`, `StoreMonotone`, `PreimageDeterminesParts` |
| Secret replication: daemon and enclave | `Daemon`, `PendingTable`, `Node`, `NodeEnclave`, `ResponseApprovals`, `PeerAnswers`, `Generation`, `Callers`, `Requests` | `ExactlyOnce`, `EveryRequestFinishes`, `NodeRunIsEnclaveRun`, `CollectedPassesExactly`, `ResponsesReplicate`, `TimedOutCallAnswered`, `RespondedCallAnswered`, `CallerSound` |
| Freshness proof | `Merkle`, `Freshness` | `MerkleBinding`, `BindingOfAnyLengths`, `AttestationExact`, `FreshnessAcceptanceExact`, `CompactRoundTrip`, `AcceptedCompactIsCanonical` |
| Scheduler | `Scheduler`, `SchedulerHistory` | `FiringHistoryExact`, `FirstFiringExact`, `CallsInARunAreComplete`, `RemovedNeverFires`, `StartPhaseExact` |
| TDX quotes | `TdxQuote`, `TdxSimulator` | `ParseThenEncode`, `EncodeThenParse`, `ShorterPrefixRefused`, `SignatureThenEncode`, `SimulatorQuoteParses` |
| Log buffer, event batcher, client binding | `LogBuffer`, `EventBatcher`, `ClientBinding` | `WriteLog` with `RetainedUnique`, `Conservation`, `EverythingIsHandedOver`, `BindingSafety`, `RequestOutcome` |

How to read it:

- Code that updates state is a class or a method with loops, proved against a function of the old state. The theorems are about
  those functions, over whole runs: a run is a sequence of states from the empty one, with one event per step, in any order.
- Time is one clock that never goes back, read once per step. Timestamps are unbounded naturals; the code's only arithmetic on
  them is `+ 3600` and period and phase addition.
- SHA-256 is a parameter with 32-byte digests; where binding needs it, the assumption is that the strings hashed on the way to
  the two roots, up to the roots and no further, do not collide. `SomeProofIsAccepted` and `SomeProofIsRefused` show that this is
  met on both sides of the result. Diffie-Hellman and AEAD are ideal (section 6.1 of RFC 7748, sections 4 and 5 of RFC 8452).
- A node's step is what one task does between two awaits that matter: the response handler keeps the lock on the pending table
  across its policy checks, so it is one step to take the lock, one per id, and one to conclude; the timer and the insertion wait
  for the lock; each finaliser is one step per call into the enclave. Everything else may happen in between. A policy run whose
  answer is lost is the enclave's run followed by a failed check.
- Verification of attestations is given anew with each operation that asks for it, so it may change between steps as the chain
  heads do.
- `departed`, `written`, `accepted`, `heard`, tags of scheduled events, `started` and `confirmed` record history so that statements can
  refer to it; no branch depends on them.

Where the code differs from its comments or from what one would expect, the model follows the code:

- A Merkle root does not fix the number of blocks: an odd list and the same list with its last block repeated share a root
  (`OddListSharesRootWithItsDuplicate`). Binding holds for equal lengths, which the compact form supplies;
  `BindingOfAnyLengths` says exactly which lists share a root.
- An event accepted exactly at its `start_at`, with a phase longer than its period, fires before `start_at` plus phase;
  `StartPhaseExact` is the exact condition.
- A box whose ids have different consumers passes the daemon's policy checks and is then refused by the enclave, which looks up
  all ids under the first one's consumer, unless they were approved for that one too; `CollectedPassesExactly` is the exact
  condition over runs, and `ApprovalsExact` spells it out for a check with nothing after it.
- A response that lists no ids counts towards the threshold and ends the request with an error (`EmptyBoxFailsRequest`).
- A signature cut short within the six bytes that announce its certificate still decodes, without the certificate
  (`ShorterSignature`).
- An expired entry is missing for the caller, and yet blocks generating a new secret for that id (`TimedOutRequestAnswered`).
- The ticker arm of the event batching loop, commented as flushing idle batches, is never taken: while a batch is open, the channel
  is not empty and the receive arm comes first (`Conservation`, `SelectExactly`).
- Two concurrent first requests with one certificate: one can be refused, although the comment says that only a different client
  is (`OwnRequestCanBeRefused`); `RequestOutcome` is the exact condition.

## Model

| member | source | states |
|---|---|---|
| `SealedBoxes.BoxOpensOnlyForRecipient` | node/enclave/src/crypto.rs:142-228 | a sealed box opens to exactly the sealed records for the key it was sealed to, and for no other key |
| `SealedBoxes.BoxOpensExactly` | node/enclave/src/crypto.rs:142-228 | nothing else opens: a box opens to given records if and only if, up to its list of ids in the clear, the holder of its sender key sealed them for this reader |
| `AuthorizationIds.ConsumerSuffixFree` | node/interface/src/types/secrets.rs:197-201 | a consumer's CBOR encoding is not the end of another's, and it determines the consumer |
| `AuthorizationIds.HeadOnlyInFront` | node/interface/src/types/secrets.rs:197-201 | the bytes a consumer's encoding begins with stand nowhere else in any consumer's encoding |
| `AuthorizationIds.PreimageDeterminesParts` | node/enclave/src/secrets/mod.rs:59-69 | equal hash inputs if and only if equal secret id, key and consumer, for keys of any lengths |
| `Enclaves.Secrets.CheckAuthorization` | node/enclave/src/secrets/mod.rs:604-676 | true if and only if the user data decodes and an unexpired approval is stored for key, id and consumer |
| `Enclaves.Secrets.CheckBox` | node/enclave/src/secrets/mod.rs:204-226 | true if and only if every listed id is authorised under the one consumer |
| `Enclaves.Secrets.StoreRecords` | node/enclave/src/secrets/mod.rs:240-287 | the loop's store and counter are those of merging the records in turn |
| `Enclaves.Secrets.VerifyBundles` | node/enclave/src/secrets/mod.rs:149-176 | dropping unverified bundles leaves the accepted records unchanged |
| `Enclaves.Secrets.ProcessBundle` | node/enclave/src/secrets/mod.rs:177-287 | one bundle contributes the records of the merge specification; which those are, `VouchedExactly` says over runs |
| `Enclaves.Secrets.PutSecrets` | node/enclave/src/secrets/mod.rs:142-294 | the new store is the merge of the records of the accepted bundles; true if and only if something was stored; `PutExactly` and `PutReportsExactly` say over runs what that means |
| `Enclaves.Secrets.GenerateSecrets` | node/enclave/src/secrets/mod.rs:297-363 | store and result are those of in-order generation, including the partial store when it stops with an error |
| `Enclaves.Secrets.GetSecrets` | node/enclave/src/secrets/mod.rs:411-528 | an error, or the box of the specification; `SealedProvenance` says over runs exactly when there is one and what is in it |
| `Enclaves.Secrets.GetSecretsForLocalWorker` | node/enclave/src/secrets/mod.rs:367-406 | the map of the specification; `WorkerProvenance` says over runs exactly which names and values it has |
| `Enclaves.Secrets.CheckSecrets` | node/enclave/src/secrets/mod.rs:531-548 | one status per id in order: valid if and only if the id is held and never expires or expires later than now, with its stored expiry |
| `Enclaves.Secrets.StoreAuthorization` | node/enclave/src/secrets/mod.rs:554-599 | a positive decision approves exactly the named ids for the key and consumer until an hour later |
| `Enclaves.Secrets.ExecutePolicy` | node/enclave/src/runner/execution.rs:95-137 | a wrong number of answers stores nothing; otherwise exactly the contexts answered true are approved, and returned in order |
| `Enclaves.SatisfiedExactly` | node/enclave/src/runner/execution.rs:113-137 | the contexts returned are those of the parts in turn, and a single one is returned exactly if answered true |
| `Enclaves.MergeAppend` | node/enclave/src/secrets/mod.rs:240-287 | merging two lists in turn is merging their concatenation, in store and in count |
| `Replication.MergeKeepsNewest` | node/enclave/src/secrets/mod.rs:240-287 | per id, a merge keeps a newest among the held entry and the live records; the held entry loses only to a strictly newer one |
| `Replication.MergeIdempotent` | node/enclave/src/secrets/mod.rs:240-287 | repeating a put changes nothing and reports no change |
| `Replication.MergeOrderIrrelevant` | node/enclave/src/secrets/mod.rs:240-287 | at one clock reading, records that agree on equal timestamps give one store in any order and with any repetition |
| `Replication.TiesAreDecidedByOrder` | node/enclave/src/secrets/mod.rs:258-276 | without that agreement the first of two differing records stays |
| `Replication.CountPositiveExactly` | node/enclave/src/secrets/mod.rs:240-294 | a put reports a change if and only if some record improves on the store it began with |
| `Replication.ReleasedRecords` | node/enclave/src/secrets/mod.rs:470-515 | a record is packed if and only if it is the stored entry of a releasable request |
| `Replication.SealThenPut` | node/enclave/src/secrets/mod.rs:142-528 | A seals for B, B verifies A and authorises every id: B's store becomes the per-id newest of its own and A's released, still live entries; true exactly when some id was new or strictly newer |
| `Replication.Replicate` | node/enclave/src/secrets/mod.rs:142-528 | the same, on two enclave objects |
| `Gossip.PutKeepsNewest` | node/enclave/src/secrets/mod.rs:142-294 | a put of any boxes keeps the store at the newest of what was heard, each box counting for what its sender had heard when sealing |
| `Gossip.GossipSpreadsNewest` | node/enclave/src/secrets/mod.rs:142-528 | in every run of any number of enclaves, with boxes sealed at one time and put later, repeatedly or never, each enclave holds per id exactly a newest entry among those that arose with it or reached it through others |
| `Gossip.SameHearingSameEntry` | node/enclave/src/secrets/mod.rs:142-528 | enclaves that have heard the same about an id hold the same entry, if equal timestamps mean equal entries |
| `Gossip.NeverBehind` | node/enclave/src/secrets/mod.rs:142-528 | an entry heard once is held from then on, as it was or newer |
| `Gossip.HeldArose` | node/enclave/src/secrets/mod.rs:142-528 | every entry held was in some store at the start or was generated by an enclave of the network |
| `Provenance.Perform` | node/enclave/src/secrets/mod.rs:142-599 | the enclave object takes exactly the steps over which the run theorems speak |
| `Provenance.GenerateOnlyAdds` | node/enclave/src/secrets/mod.rs:297-363 | generation alters no existing entry, also on error; what it adds never expires, is stamped now and was authorised |
| `Provenance.GenerateSucceedsExactly` | node/enclave/src/secrets/mod.rs:297-363 | it succeeds if and only if the authorised requests name distinct new ids and randomness is available for each |
| `Provenance.StoreMonotone` | node/enclave/src/secrets/mod.rs:142-363 | between any two points of any run no id is removed and an entry changes only to a strictly newer one |
| `Provenance.GrantAllEntries` | node/enclave/src/runner/execution.rs:113-128 | a policy run touches exactly the approvals it answered true for, and stamps them with its time plus 3600 |
| `Provenance.AuthorizationsBacked` | node/enclave/src/secrets/mod.rs:554-599 | every stored approval is the trace of a policy run earlier in the run |
| `Provenance.AuthorizedExactly` | node/enclave/src/secrets/mod.rs:554-676 | over every run and at any later time, authorised if and only if the user data decodes and an earlier policy run approved that key, id and consumer less than 3600 s before |
| `Provenance.VouchedExactly` | node/enclave/src/secrets/mod.rs:177-235 | over every run, a bundle of a put is opened if and only if its sender verifies, its box is under the sender's key, and every listed id was recently approved for that key and consumer |
| `Provenance.PutExactly` | node/enclave/src/secrets/mod.rs:142-294 | over every run, a put leaves for each id a newest of the entry held and the live records that such bundles open to, and nothing else; a held entry loses only to a strictly newer one |
| `Provenance.PutReportsExactly` | node/enclave/src/secrets/mod.rs:142-294 | it reports a change if and only if such a bundle opens to a live record that is new or strictly newer |
| `Provenance.UnvouchedIsIgnored` | node/enclave/src/secrets/mod.rs:177-226 | a put with a bundle that is not so vouched for does exactly what it does without that bundle |
| `Provenance.EveryEntryVouched` | node/enclave/src/secrets/mod.rs:142-363 | over every run, every entry held was generated there with a recent approval, or came as a live record in the box of a vouched bundle |
| `Provenance.SealedProvenance` | node/enclave/src/secrets/mod.rs:411-528 | over every run, a box is returned if and only if the requester verifies, its user data decodes and its key has 32 bytes; a record is in it if and only if it is the live stored entry, asked for under a consumer for which that key was approved under 3600 s before |
| `Provenance.WorkerProvenance` | node/enclave/src/secrets/mod.rs:367-406 | over every run, a worker gets a value under a name if and only if some secret wanted under it is held, unexpired and approved under 3600 s before, and then the data of the last such |
| `Daemons.SecretsService.CheckLocal` | node/daemon/src/services/secrets.rs:698-735 | splits the ids into those held and unexpired and the rest |
| `Daemons.SecretsService.OpenRequest` | node/daemon/src/services/secrets.rs:183-210 | a fresh id enters the table with no bundles and an armed timer |
| `Daemons.SecretsService.CheckPolicyForEnv` | node/daemon/src/services/runner.rs:218-260 | the policy's one answer, and if it is true the approval is in the enclave; an error, storing nothing, when the worker fails or returns another number of answers |
| `Daemons.SecretsService.CheckIds` | node/daemon/src/services/secrets.rs:299-340 | approvals and outcome of the id loop, including those left behind when it stops early |
| `Daemons.SecretsService.HandleIncomingResponse` | node/daemon/src/services/secrets.rs:286-388 | a checked response is collected, and takes the request out at the threshold; anything else leaves the table as it was |
| `Daemons.SecretsService.HandleIncomingRequest` | node/daemon/src/services/secrets.rs:391-489 | the box for a peer, or none, and the approvals made for it, as `AnswerIsComplete` and `PeerPlanApproves` describe them |
| `Daemons.SecretsService.TimeoutElapsed` | node/daemon/src/services/secrets.rs:210-247 | the timer takes a request that is still in the table below its threshold out of it and hands it to generation; `TimerLeadsToGeneration` says so over runs |
| `Daemons.SecretsService.FinalizeThreshold` | node/daemon/src/services/secrets.rs:544-633 | the put of the collected bundles, each under its first id's consumer, and on to the final check or an error; a call that fails may have stored or not |
| `Daemons.SecretsService.GenerateSecretsFlow` | node/daemon/src/services/secrets.rs:769-822 | self-authorisation in order under the daemon's report, stopped by an error but not by a denial, then generation under the enclave's own |
| `Daemons.SecretsService.FinalizeTimeout` | node/daemon/src/services/secrets.rs:493-540 | generation for the requested ids, and on to the final check or an error |
| `Daemons.SecretsService.CheckAndRespond` | node/daemon/src/services/secrets.rs:636-695 | one answer: Ok exactly if every requested id is held and unexpired |
| `PendingTables.MoveKeepsInv` | node/daemon/src/services/secrets.rs:183-374 | every move keeps: each id in exactly one place, counts equal to bundles and below the threshold, departures and answers once |
| `PendingTables.MoveIsOnward` | node/daemon/src/services/secrets.rs:183-374 | no move takes a request back or changes an answer already sent |
| `PendingTables.MoveKeepsIds` | node/daemon/src/services/secrets.rs:183-695 | a request is about the same ids, each for the same consumer, from reservation to final check |
| `PendingTables.MoveKeepsTask` | node/daemon/src/services/secrets.rs:493-695 | only its own finaliser changes what a request out of the table has to do next |
| `Nodes.NextMoves` | node/daemon/src/services/secrets.rs:84-695 | every event does one of the table's moves; only a final check that found every id answers Ok |
| `Nodes.NextKeepsInv` | node/daemon/src/services/secrets.rs:183-695 | every event of every kind keeps the table invariant, and a locked request stays in the table |
| `Nodes.ExactlyOnce` | node/daemon/src/services/secrets.rs:183-695 | in every interleaving each id leaves the table once and is answered once; pending entries have count = bundles < threshold, so a timer that finds its request takes it out; at rest every id has its one answer |
| `Nodes.RequestsMoveOn` | node/daemon/src/services/secrets.rs:183-695 | once out of the table a request never returns, and its answer never changes |
| `Nodes.TimerGoesOffOnce` | node/daemon/src/services/secrets.rs:210-247 | in every run a timer goes off at most once |
| `Nodes.OneThreshold` | node/daemon/src/services/secrets.rs:183-207 | in every run each request in the table waits for the node's one threshold |
| `Nodes.OwnStepAdvances` | node/daemon/src/services/secrets.rs:183-695 | whatever its calls return, each step of a request's own brings it closer to its answer |
| `Nodes.OwnStepEnabled` | node/daemon/src/services/secrets.rs:183-695 | while a request is unanswered and the table is not locked, such a step is enabled, for every outcome of its calls |
| `Nodes.EveryRequestFinishes` | node/daemon/src/services/secrets.rs:183-695 | in every run a request that has taken the steps it had left, four at most, has exactly one answer |
| `Nodes.EveryHandlerFinishes` | node/daemon/src/services/secrets.rs:286-388 | whatever the verdicts, a handler releases the lock within one step per id it had left and one more |
| `NodeEnclaves.NodeRunIsEnclaveRun` | node/daemon/src/services/secrets.rs:286-822 | every run of daemon and enclave, projected to the enclave, is an enclave run |
| `NodeEnclaves.NodeReleasesApproved` | node/enclave/src/secrets/mod.rs:411-528 | exact release provenance, with verification, whatever the daemon does |
| `NodeEnclaves.NodeEntriesVouched` | node/enclave/src/secrets/mod.rs:142-363 | entry provenance whatever the daemon does |
| `NodeEnclaves.NodeStoreGrows` | node/enclave/src/secrets/mod.rs:142-363 | store monotonicity whatever the daemon does |
| `ResponseApprovals.NextKeepsApprovals` | node/daemon/src/services/secrets.rs:299-340 | every event keeps each collected bundle approved, per id and consumer, until an hour after its checks began |
| `ResponseApprovals.ApprovalsSuffice` | node/daemon/src/services/secrets.rs:575-602 | in every run, a collected response with decodable user data and one consumer passes the enclave's authorization loop within 3600 s |
| `ResponseApprovals.AcceptedResponsesAreStored` | node/enclave/src/secrets/mod.rs:204-287 | so boxes that verified peers sealed for this enclave, however many were collected, are all opened and their records merged |
| `ResponseApprovals.CheckedEntries` | node/daemon/src/services/secrets.rs:299-340 | approved afresh by the id loop are exactly the (key, id, consumer) triples of the ids allowed before it stopped, whatever its outcome; every other approval stays as it was |
| `ResponseApprovals.ApprovalsExact` | node/daemon/src/services/secrets.rs:299-340 | what one check by itself gives: the enclave then accepts if and only if user data decodes, less than 3600 s have passed, and each id has the first one's consumer or was approved for it before |
| `ResponseApprovals.AuthorizedExactly` | node/enclave/src/secrets/mod.rs:554-676 | in every run of a node, authorised if and only if the user data decodes and a policy run less than 3600 s before allowed that key, id and consumer |
| `ResponseApprovals.CollectedPassesExactly` | node/daemon/src/services/secrets.rs:575-602 | in every run, with anything in between, the enclave's loop accepts a collected response if and only if user data decodes and each id was allowed within 3600 s for the first one's consumer |
| `ResponseApprovals.HandlerIsItsSteps` | node/daemon/src/services/secrets.rs:286-388 | the handler's steps, left alone, do what the method does in one go |
| `ResponseApprovals.EmptyBoxFailsRequest` | node/daemon/src/services/secrets.rs:575-623 | a response listing no ids ends the request with an error |
| `PeerAnswers.AnswerIsComplete` | node/daemon/src/services/secrets.rs:391-489 | a peer answers if and only if its report could be made, the requester verifies with a decodable 32-byte key, and some id is held, unexpired and allowed; its box lists exactly those ids, in order, with the stored entries |
| `PeerAnswers.PeerPlanApproves` | node/daemon/src/services/secrets.rs:398-460 | approved afresh for a requester are exactly its key with the held, live and allowed ids, each for the first consumer named |
| `PeerAnswers.GrantableExactly` | node/daemon/src/services/secrets.rs:398-460 | a request is passed on to the enclave if and only if it is for a held, live and allowed id and the first consumer named |
| `PeerAnswers.ResponsesReplicate` | node/daemon/src/services/secrets.rs:544-633 | end to end over all nodes: the put of any number of collected boxes makes the store the newest-wins join with what the peers released, and the request proceeds exactly if something was new or newer and the answer got back |
| `GenerationFlow.SelfAuthorized` | node/daemon/src/services/secrets.rs:769-815 | the flow's policy runs succeed if and only if every policy could be run, a denial being no error; approved afresh are exactly the requests allowed before the first error |
| `GenerationFlow.GenerationExact` | node/enclave/src/secrets/mod.rs:297-363 | when every id is authorised and randomness is available, generation succeeds if and only if no requested id has any entry; then all are held and never expire |
| `GenerationFlow.TimeoutAnswerExact` | node/daemon/src/services/secrets.rs:493-540 | in every run, with any steps between generation and check: an error if the store had an entry for a requested id; otherwise the final check answers Ok if and only if no put replaced a generated entry by one that has expired |
| `Callers.CallStaysOk` | node/daemon/src/services/secrets.rs:84-283 | every event keeps the link from each call to its request, its ids and the check that confirmed them |
| `Callers.CallerSound` | node/daemon/src/services/secrets.rs:84-283 | Ok only if every requested id was held and unexpired at some step since the call began, and is still in the store, unchanged or newer |
| `Callers.BeginExactly` | node/daemon/src/services/secrets.rs:84-107 | in every run a call whose ids are all held and unexpired is answered Ok at once; any other stays open with exactly the other ids missing |
| `Callers.ReturnExactly` | node/daemon/src/services/secrets.rs:266-283 | a waiting call returns exactly the one answer its request was sent, and waits while there is none |
| `Callers.CallEndsExactly` | node/daemon/src/services/secrets.rs:109-283 | in every run an open call ends in an error exactly when it is given up without a request or its broadcast fails, and otherwise only with the answer of its request |
| `RequestOutcomes.TimerLeadsToGeneration` | node/daemon/src/services/secrets.rs:210-247 | in every run, a timer that finds its request in the table and the lock free makes generation, for exactly its ids and consumers, the request's next own step, whenever that comes |
| `RequestOutcomes.ResponseLeadsToPut` | node/daemon/src/services/secrets.rs:342-388 | in every run, the response that reaches the node's threshold makes the put, with exactly the collected responses in order, the next own step; one below it is only collected |
| `RequestOutcomes.GenerationCallExactly` | node/daemon/src/services/secrets.rs:493-540 | in every run and for every outcome, after the generation call the request goes on if and only if policies could be run, the report was there, the authorised requests fit and the answer got back; otherwise it is answered with an error |
| `RequestOutcomes.PutCallStores` | node/daemon/src/services/secrets.rs:544-633 | in every run, whatever was collected, the put call leaves for each id a newest of the held entry and the live records of responses whose sender verifies under its own key and whose ids were all recently allowed to it |
| `RequestOutcomes.PutCallExactly` | node/daemon/src/services/secrets.rs:544-633 | and the request goes on if and only if such a response brought something new or newer and the answer got back; otherwise it is answered with an error |
| `RequestOutcomes.FinalCheckExactly` | node/daemon/src/services/secrets.rs:636-695 | in every run the final check answers Ok if and only if it gets an answer and every id is held and unexpired |
| `RequestOutcomes.TimedOutRequestAnswered` | node/daemon/src/services/secrets.rs:210-247 | in every run, from timer over generation to check with anything in between: Ok if and only if none of the ids was in the store and no generated entry was replaced by one that has expired |
| `RequestOutcomes.TimedOutCallAnswered` | node/daemon/src/services/secrets.rs:84-283 | and the caller is told exactly that, for its missing ids, each under the first consumer it named |
| `RequestOutcomes.RequestOfCall` | node/daemon/src/services/secrets.rs:109-207 | in every run the request of a call is for exactly its missing ids, each for the first consumer named |
| `RequestOutcomes.RespondedRequestAnswered` | node/daemon/src/services/secrets.rs:342-388 | in every run, from the last response over the put to the check: Ok if and only if the put brought something new or newer and every id is then held and unexpired |
| `RequestOutcomes.RespondedCallAnswered` | node/daemon/src/services/secrets.rs:84-283 | and the caller is told exactly that, for its missing ids |
| `Merkle.NextLevel` | node/attestation/src/freshness.rs:137-152 | one pass builds the next level of the tree, the odd last node paired with itself |
| `Merkle.OnlyRootIsAlone` | node/attestation/src/freshness.rs:137-155 | the loop's exit test holds at the root's height and at no lower one |
| `Merkle.ComputeMerkleRoot` | node/attestation/src/freshness.rs:118-156 | the level-by-level loop terminates with the root of the recursive tree |
| `Merkle.RootOfThree` | node/attestation/src/freshness.rs:118-156 | the root of three blocks written out: left before right, the odd last one with itself |
| `Merkle.EqualLevelsBelow` | node/attestation/src/freshness.rs:118-156 | equality of one level flows down to every block |
| `Merkle.MerkleBinding` | node/attestation/src/freshness.rs:118-156 | for lists of one length, equal roots if and only if equal chain id, number and hash at every position |
| `Merkle.SameBlocksSameRoot` | node/attestation/src/freshness.rs:118-156 | the root depends on nothing else in the blocks, for every hash function |
| `Merkle.RootLength` | node/attestation/src/freshness.rs:118-156 | a root always has 32 bytes, also for the empty list |
| `Merkle.OddListSharesRootWithItsDuplicate` | node/attestation/src/freshness.rs:141-147 | repeating the last block of an odd list of three or more keeps the root, for every hash function |
| `Merkle.BindingOfAnyLengths` | node/attestation/src/freshness.rs:118-156 | for non-empty lists of any two lengths with 32-byte block hashes, equal roots if and only if the trees have one height and, filled up by duplication, the same blocks |
| `Merkle.FilledUpBegins` | node/attestation/src/freshness.rs:137-152 | the filled-up list begins with the list itself |
| `Freshness.CreateCompactRepresentation` | node/attestation/src/freshness.rs:159-176 | the appending loop writes the compact encoding, with the count byte truncated |
| `Freshness.ParseCompactData` | node/attestation/src/freshness.rs:389-428 | the cursor loop computes the decoder's value on every byte string |
| `Freshness.CompactRoundTrip` | node/attestation/src/freshness.rs:159-176 | up to 255 references come back with the root; 256 or more are always refused |
| `Freshness.AcceptedCompactIsCanonical` | node/attestation/src/freshness.rs:389-428 | every accepted byte string re-encodes to itself |
| `Freshness.MakeProof` | node/attestation/src/freshness.rs:82-98 | a new proof carries the tree root of its blocks and their compact encoding |
| `Freshness.FetchChainBlock` | node/attestation/src/freshness.rs:298-308 | a fetched block belongs to the chain asked for and is among what the gateway answered for it |
| `Freshness.FetchBlocksByReferences` | node/attestation/src/freshness.rs:431-467 | one current block per reference, or failure because some chain has none; the number in the reference does not matter |
| `Freshness.VerifyFreshnessProof` | node/attestation/src/freshness.rs:354-386 | true if and only if structure, parse, fetch and root comparison all succeed, or freshness is disabled |
| `Freshness.FreshnessAcceptanceExact` | node/attestation/src/freshness.rs:354-467 | with freshness enabled a proof built from blocks verifies if and only if there are at least the minimum and at most 255 and each equals the fetched block in id, number and hash |
| `Freshness.SomeProofIsAccepted` | node/attestation/src/freshness.rs:354-467 | for any two blocks with 32-byte hashes on different chains, the hypotheses of exact acceptance can be met by an accepted proof |
| `Freshness.SomeProofIsRefused` | node/attestation/src/freshness.rs:354-467 | for any block that is not current, they can be met by a refused one |
| `Freshness.CurrentBlocksVerify` | node/attestation/src/freshness.rs:184-201 | the accepting half, for every hash function |
| `Freshness.FetchBlocksInternal` | node/attestation/src/freshness.rs:273-295 | the reachable required chains' blocks in order, or failure when they are too few |
| `Freshness.ReachableExactly` | node/attestation/src/freshness.rs:273-295 | the blocks of two lists of chains are those of the one and then the other, and of one chain its current block if it has one |
| `Freshness.HonestProofVerifies` | node/attestation/src/freshness.rs:247-295 | a prover and a verifier with one view of the chains agree if and only if the reachable chains are at least the minimum and at most 255 |
| `Freshness.VerifyAttestation` | node/attestation/src/lib.rs:172-237 | true if and only if the first provider that neither abstains nor errs vouches and the user data is fresh; `AttestationExact` says when that is |
| `Freshness.AttestationFreshnessExact` | node/attestation/src/lib.rs:194-207 | with freshness required, user data passes exactly if it decodes and has between max(1, minimum) and 255 blocks, each current |
| `Freshness.AttestationExact` | node/attestation/src/lib.rs:172-237 | the whole provider chain: the first provider that does not abstain or err decides, whatever follows; its yes counts if and only if the user data decodes and, with freshness enabled, has between max(1, minimum) and 255 blocks, each current; disabled, blocks and gateway do not matter |
| `Schedulers.SchedulerService.AddScheduledEvent` | node/daemon/src/services/scheduler.rs:198-249 | an invalid schedule changes nothing; a valid one is queued for its first time and its work order tracked; `AcceptedExactly` and `FirstFiringExact` give both in the schedule's own numbers |
| `Schedulers.SchedulerService.RemoveWorkOrder` | node/daemon/src/services/scheduler.rs:251-268 | exactly the events of other work orders stay |
| `Schedulers.SchedulerService.FireReadyEvents` | node/daemon/src/services/scheduler.rs:270-320 | the due, tracked events fire once each, earliest first; the queue keeps the rest and the rescheduled |
| `SchedulerHistory.StepKeepsInv` | node/daemon/src/services/scheduler.rs:219-375 | every add, removal and firing keeps each event's history within its schedule and its queue entry in step with it |
| `SchedulerHistory.FiringHistoryBounds` | node/daemon/src/services/scheduler.rs:270-375 | over every run: at most the maximum of firings, a period apart, none before the first due time, at most one at or after the end |
| `SchedulerHistory.FiringHistoryExact` | node/daemon/src/services/scheduler.rs:219-374 | over every run and for every accepted event: it has fired at exactly the times its schedule makes of the calls since, up to its removal, and is queued exactly if not removed and due again |
| `SchedulerHistory.FirstFiringExact` | node/daemon/src/services/scheduler.rs:344-374 | over every run: an event not removed fires in the first call at or after start plus phase, if accepted before its start, or else a period after acceptance, and in no earlier call |
| `SchedulerHistory.FiringsNameTheirEvent` | node/daemon/src/services/scheduler.rs:270-320 | over every run, every firing carries the work order and handler its event was accepted with |
| `SchedulerHistory.AcceptedExactly` | node/daemon/src/services/scheduler.rs:67-109 | over every run, an addition is accepted if and only if the period respects the minimum, the start is not past, the end is after the start and an occurrence is allowed; otherwise nothing changes |
| `SchedulerHistory.FireIsComplete` | node/daemon/src/services/scheduler.rs:270-342 | one call fires exactly the due events, keeps every other, and drops a due one only at its limit or end; the tracking guard never discards one |
| `SchedulerHistory.CallsInARunAreComplete` | node/daemon/src/services/scheduler.rs:270-320 | with a positive minimum interval, every call of every run fires exactly the due events and leaves only future ones |
| `SchedulerHistory.PeriodsAtLeastMinimum` | node/daemon/src/services/scheduler.rs:67-109 | every queued event of every run respects the minimum interval |
| `SchedulerHistory.RemovedNeverFires` | node/daemon/src/services/scheduler.rs:251-320 | after a removal the work order is untracked, has nothing queued and never fires until an addition for it is accepted again |
| `SchedulerHistory.EarliestFiringAttained` | node/daemon/src/services/scheduler.rs:344-374 | a run fires at start plus phase, if accepted before the start, or else a period after acceptance |
| `SchedulerHistory.StartPhaseExact` | node/daemon/src/services/scheduler.rs:344-374 | no run fires before start plus phase if and only if the event was accepted before its start or its phase is at most its period |
| `TdxQuotes.Cursor.TakeBytes` | node/attestation/src/tdx/parser.rs:629-636 | the next bytes and a moved cursor, or a refusal that leaves it |
| `TdxQuotes.Cursor.TakeUint` | node/attestation/src/tdx/parser.rs:588-627 | the little-endian value of the next bytes |
| `TdxQuotes.ParseHeader` | node/attestation/src/tdx/parser.rs:429-449 | the header fields at their offsets, or refusal of short input |
| `TdxQuotes.ParseRtmrs` | node/attestation/src/tdx/parser.rs:487-491 | the loop fills the four registers in order |
| `TdxQuotes.ParseReport` | node/attestation/src/tdx/parser.rs:471-509 | the report fields at their offsets, or refusal |
| `TdxQuotes.ParseSignature` | node/attestation/src/tdx/parser.rs:514-584 | the decoded signature, with its fixed part and its length-prefixed tail |
| `TdxQuotes.ParseQuote` | node/attestation/src/tdx/parser.rs:135-183 | the cursor parser computes the reference parser on every byte string |
| `TdxQuotes.AcceptedExactly` | node/attestation/src/tdx/parser.rs:135-183 | a byte string is accepted if and only if it is long enough for its declared signature, begins with version 4 and has TEE type 0x81 in bytes 4 to 8 |
| `TdxQuotes.ParseThenEncode` | node/attestation/src/tdx/parser.rs:135-183 | whenever a quote is accepted, re-encoding gives back exactly its first 636 + signature length bytes |
| `TdxQuotes.EncodeThenParse` | node/attestation/src/tdx/parser.rs:135-183 | every well-formed quote parses back from its encoding |
| `TdxQuotes.TrailingBytesIgnored` | node/attestation/src/tdx/parser.rs:135-183 | extra bytes after an accepted quote never change the result |
| `TdxQuotes.ShorterPrefixRefused` | node/attestation/src/tdx/parser.rs:135-183 | every prefix shorter than 636 + signature length bytes is refused |
| `TdxQuotes.SignatureThenEncode` | node/attestation/src/tdx/parser.rs:514-584 | whenever a signature decodes, writing it gives back its own prefix |
| `TdxQuotes.EncodeThenSignature` | node/attestation/src/tdx/parser.rs:514-584 | every signature with a certificate that fits the layout decodes from what is written, whatever follows |
| `TdxQuotes.EncodeThenBareSignature` | node/attestation/src/tdx/parser.rs:514-584 | one without a certificate does if fewer than six bytes follow |
| `TdxQuotes.ShorterSignature` | node/attestation/src/tdx/parser.rs:514-584 | every shorter prefix is refused, except one cut within the certificate's six-byte head, which decodes without the certificate |
| `TdxSimulator.MakeBody` | node/attestation/src/tdx/hardware.rs:360-442 | writing slices at fixed offsets gives the body with every field in its place |
| `TdxSimulator.MakeMockQuote` | node/attestation/src/tdx/hardware.rs:330-453 | the appended buffer is the encoding of the mock quote |
| `TdxSimulator.SimulatorQuoteParses` | node/attestation/src/tdx/hardware.rs:330-453 | every version-4 simulator quote parses back with its report data, debug bit and configured measurement, and any other version is refused |
| `LogBuffers.LogBuffer.WriteLog` | node/vm/base/src/logging.rs:48-77 | every write keeps the closed form of the history and the true byte total, so the saturating subtraction never saturates |
| `LogBuffers.LogBuffer.GetTail` | node/vm/base/src/logging.rs:79-92 | the last entries, as many as asked for or as there are |
| `LogBuffers.LongestFitInHistory` | node/vm/base/src/logging.rs:58-70 | evicting from the history finds the same run as searching everything ever written |
| `LogBuffers.RetainedBounds` | node/vm/base/src/logging.rs:48-77 | at most the line limit, ending in the last line, all before it under the byte limit |
| `LogBuffers.NothingDroppedTooEarly` | node/vm/base/src/logging.rs:48-77 | everything is kept, or the line limit is reached, or one older entry would bring what is before the last to the byte limit |
| `LogBuffers.RetainedUnique` | node/vm/base/src/logging.rs:48-77 | the closed form determines the history |
| `EventBatcher.RunTask` | node/daemon/src/main.rs:230-269 | the task under any interleaving takes exactly the steps over which the lemmas speak |
| `EventBatcher.Conservation` | node/daemon/src/main.rs:230-269 | over every interleaving, batches handed over, then the open batch, then the channel, are the events sent in order; batches have 1 to 100; a close leaves nothing |
| `EventBatcher.HandoverExactly` | node/daemon/src/main.rs:234-268 | at any point, a step hands over the open batch exactly when a test finds it full or the channel empty, or on shutdown; so a batch below 100 leaves only with the last event sent or on shutdown |
| `EventBatcher.EverythingIsHandedOver` | node/daemon/src/main.rs:230-269 | left alone, the task hands over everything sent, in hundreds and one last batch with the rest |
| `EventBatcher.SelectExactly` | node/daemon/src/main.rs:234-255 | a shutdown comes first, then the next event, then the closed channel; the ticker never changes anything |
| `EventBatcher.SentSnoc` | node/daemon/src/main.rs:230-269 | what is on the channel's record after one more step: a send counts until the senders are dropped |
| `ClientBinding.BoundClient.BindClient` | node/vm/base/src/binding.rs:38-48 | binds exactly when nothing is bound |
| `ClientBinding.BoundClient.IsBoundClient` | node/vm/base/src/binding.rs:50-56 | true exactly for the bound certificate |
| `ClientBinding.Drive` | node/vm/base/src/binding.rs:107-149 | the shared object under any interleaving computes the run of the state machine |
| `ClientBinding.BindingSafety` | node/vm/base/src/binding.rs:38-149 | over every interleaving the certificate is set at most once and every accepted request carries it |
| `ClientBinding.RequestOutcome` | node/vm/base/src/binding.rs:107-149 | exactly when a request is accepted, in terms of what is bound at its check and at its bind |
| `ClientBinding.UndisturbedRequestOutcome` | node/vm/base/src/binding.rs:107-149 | with nothing in between: accepted exactly if nothing or its own certificate is bound |
| `ClientBinding.OwnRequestCanBeRefused` | node/vm/base/src/binding.rs:121-141 | an interleaving in which a request with the certificate that becomes bound is refused |

## Left out

- libp2p gossip, gRPC, the HTTP server, VM and TLS transport and configuration: messages and call failures appear only as events and flags.
- TDX device ioctls, configfs and the `dcap_qvl` call: verification is a predicate on a bundle; the claims extracted from a quote are not modelled.
- The internals of X25519, AES-GCM-SIV, SHA-256 and JSON, and key zeroing; of CBOR, only the encoding of a consumer is modelled, and that of a secret id is any self-delimiting one.
- Integer widths of timestamps and counters: 64-bit overflow of `timestamp + 3600` and of the request counter is not modelled.
- Several clock readings inside one step: the enclave's and the daemon's readings in one check are one reading.
- Boxes whose cleartext id list was not written by `encrypt_secrets_box`: what a put makes of them is covered (`PutExactly`), but that the ids inside are the ids listed holds only for boxes it built.
- Age of blocks: the code has disabled that check.
- Deduplication and wording of errors: error returns are told apart only where the code acts on them.
- The policy runs a caller makes before opening its request are arbitrary enclave operations in a node run, and any failure there is `Abandon`.
- Dropping the receiving end of a responder: an answer counts as sent even if nobody waits for it.
- Scheduler stop, catch-up policy fields and the index values in `work_order_events`, on which the code does not act, and the waiting between calls.
- Failed event deliveries and retry: a batch counts as delivered once it is handed to the client.
- Scanning user data for an embedded proof.
- Log streaming and the maps of live and dead workers in the log manager: easy members.
- Policy JavaScript, the SDK, infrastructure scripts, chain lists and registry wrappers.
