# Verified model of the DACS verifier kernel

A Dafny model of the stateful and algebraic core of the repository: selective disclosure, the paid-delivery
store, the spend gate, bundle verification and resolution, quorum and amount checks, the secure channel and the
codecs. Each module names the source file it models. `dafny verify dfyconfig.toml` checks everything.

How the model is built:

- **Primitives are parameters.** SHA-256, HMAC, key derivation, Ed25519, UTF-8, JCS (RFC 8785), claim-key reading,
  date and URL parsing are arbitrary functions. The laws a result needs (signing works, UTF-8 is injective, printed
  rows hold no newline) are named predicates, required where they are used. No hash is assumed injective: every
  binding result ends in "or here are two different texts, among the ones actually hashed, with one digest".
- **Errors are values.** `None` stands for a thrown error, and verdicts carry the check that failed.
- **State is state.** The closures and classes of the source that update fields are classes with those fields
  (`FileDeliveryStore`, `PayDemAuthorizationGate`, `InMemoryConsentAnchor`, `InMemoryConsumptionStore`,
  `LocalSecureChannel`); each method's contract ties the new state to a function of the old, and the results over
  whole runs are lemmas about those functions.
- **Loops are loops.** Methods with the source's loops are proved against the functions or order-free predicates the
  lemmas speak of.
- **Rules are said twice.** Beside the functions that follow the source step by step stand laws (`..Spelled`,
  `..ExactlyWhen`) that say what the answer is without those functions: which bytes are hashed and signed, under which
  key and domain, which condition decides and in which order failures are named. The table names those with a condition
  or a claim of their own; literal ones (field names, messages, orders of checks) stand in the modules only.

| module | models |
|---|---|
| `Merkle`, `Disclose`, `SealedBid`, `Consent`, `Dispute` | commitment trees, reveals, sealed bids, the consent ledger, dispute bundles |
| `DeliveryStore` | the byte file, its index, torn tails and crashes |
| `PayPolicy`, `PayDemAuthorization` | spend accounting, and many gates on one journal with one lease |
| `Bundles`, `VerifyBundle`, `TwoSided`, `BundleConsistency` | the signed scope, acceptance, emission, two-sided anchoring, divergence |
| `FaultRules`, `FaultBundles`, `BundleBinding` | rosters and faults, fault reconciliation, binding resolution |
| `Price`, `Quorum`, `Deposits`, `BridgeRelease`, `TankRefund`, `TankLock`, `BridgeLedger` | exact decimals, quorums, the three bridge verifiers, ledgers over runs |
| `SecureChannel`, `Addressing`, `SignatureText` | the channel, listing addresses, signature text |
| `ByteStrings`, `TextOrder`, `TextSearch`, `Selections`, `DecimalText`, `Primitives` | hex, big-endian words, string order and search, filtering and stable sorting, numerals, the parameter records |

## Where the code and its description part

The model follows the code. These differences are stated as lemmas.

- A commitment spelled `0X..` passes the membership test of `buildMerklePath` but its path never verifies
  (`Merkle.BuiltPathVerifies` gives the exact condition).
- A complete row that only lost its newline is skipped by the load and surfaces with the next append, so the index can
  then disagree with a fresh parse (`DeliveryStore.AppendKeepsAgreementExactlyWhen`; reached in
  `DeliveryStore.LostNewlineBreaksAgreement`).
- A delivery file whose very first write is cut inside the header line is refused by every later load, and only such a
  file is (`DeliveryStore.RefusedExactlyWhen`).
- The deduplicating anchor is what stops a replayed grant; on the plain ledger carried in a dispute bundle a revoked
  consent is revived exactly by a counted, unexpired grant of its founder, replayed or new
  (`Consent.RevokedConsentRevivesExactlyWhen`, `Consent.ReplayOnPlainLedgerRevives`).
- A release blocks later refunds of its deposit, but a refund is not recorded: a deposit is paid out twice exactly when a
  passing refund of it comes before its release or before another refund (`BridgeLedger.PaidOutTwiceExactlyWhen`).
  Recording refunds closes this (`BridgeLedger.RecordingRefundsPaysEachOnce`).
- `priceEqual` compares canonical texts, so it tells equal amounts apart exactly when these have different numbers of
  fraction digits, which takes different declared precisions (`Price.PriceEqualExactlyWhen`,
  `Price.EqualityIsExactAtOnePrecision`).
- `v1Divergence` walks entries, not indices: with a repeated index a copy can diverge from itself
  (`BundleConsistency.RepeatedIndexDivergesFromItself`), exactly when that index reads differently
  (`BundleConsistency.V1AgreementIsAgreementOfAConsistentCopy`), so two-sided verification of honestly emitted copies
  fails for such bundles (`TwoSided.EmittedCopiesVerify` is an if-and-only-if).
- The mixed-version resolver's comment calls the fault bundle authoritative; the code looks for `faultBundleVersion` only
  and passes over evidence-bound fault bundles that are not listed first
  (`FaultBundles.UnifiedBundleIsAFaultBundleExactlyWhen`, `FaultBundles.EvidenceBoundCopyIsPassedOver`).
- The mixed-version resolver's comment asks for every pairwise intersection of fault sets and agreement on shared phase
  indices; the code compares each copy with the first only, and so does the fault-bundle resolver. With three copies a
  disagreement can go unnoticed, depending on which is listed first: exactly when
  `FaultBundles.CopiesReconcilePairwiseExactlyWhen` and `FaultBundles.CopiesConcurPairwiseExactlyWhen` say
  (`FaultBundles.FirstCopyHidesADisagreement`).
- Binding resolution is meant to be independent of the order of the bindings; it is except between different native
  addresses of one signer that `localeCompare` holds equal, where the first listed wins
  (`BundleBinding.OrderIsIgnoredExactlyWhen`, `BundleBinding.TwinsGoByInputOrder`).
- Verifier ids that contain the unit separator can share a consumption key: exactly those of the form in
  `Dispute.VerifiersShareAKeyExactlyWhen`.
- The colon-to-`%3A` name is not injective on arbitrary strings: exactly strings that differ in escaped colons only
  collide (`Addressing.NamesCoincideExactlyWhen`); on listing addresses it is injective.

## Model

| member | source | states |
|---|---|---|
| Merkle.ComputeCommitmentRoot | src/lib/disclose.ts:264-287 | the level-by-level loop computes the root of the sorted, deduplicated, lower-cased set, and throws exactly for an empty or undecodable set; what that root is, the next row says |
| Merkle.RootIsTheTreesTop | src/lib/disclose.ts:250-287 | the root is the top of a tree of listed levels: leaves hash a 0 byte and each distinct lower-cased commitment in sorted order, and every node hashes a 1 byte and its two children, the last node of an odd level being its own sibling; there is one exactly for a non-empty, decodable set |
| Merkle.BuildMerklePath | src/lib/disclose.ts:294-318 | a path exists exactly for a listed commitment in a decodable set, and is the audit path of that leaf |
| Merkle.PathClimbsTheTree | src/lib/disclose.ts:294-318 | step by step the path of a leaf carries the other child of its ancestor, on its own side, and an odd last node itself on the right |
| Merkle.VerifyMerklePath | src/lib/disclose.ts:324-356 | the loop accepts exactly when folding the steps from the leaf reaches the root, rejecting malformed input |
| Merkle.AcceptedMeansRecomputed | src/lib/disclose.ts:324-356 | accepted if and only if a run exists from the hash of a 0 byte and the commitment to the root, each step hashing a 1 byte and the 32-byte sibling before or after the value as its side says, commitment and root being 32 bytes |
| Merkle.PathFoldsToRoot | src/lib/disclose.ts:274-318 | the audit path of any node of any level folds to that level's root |
| Merkle.BuiltPathVerifies | src/lib/disclose.ts:294-356 | completeness: the path built for a member verifies against the root of the same set if and only if the target itself decodes to 32 bytes |
| Merkle.PathLengthIsLogarithmic | src/lib/disclose.ts:294-318 | for n > 1 leaves the path length d satisfies 2^(d-1) < n <= 2^d |
| Merkle.AcceptedPathProvesMembership | src/lib/disclose.ts:250-356 | soundness: an accepted path of any length proves membership, or two preimages hashed by the check and by the tree collide |
| Merkle.FoldMeetsLevel | src/lib/disclose.ts:255-356 | an accepting fold passes through a node of every level, or a collision is exhibited |
| Merkle.RootDependsOnlyOnTheSet | src/lib/disclose.ts:264-287 | order, letter case and repeats never change the root |
| Merkle.EqualRootsMeanEqualSets | src/lib/disclose.ts:264-287 | two sets of 64-digit commitments with one root are equal, or a collision is exhibited |
| Disclose.LenDelimit | src/lib/disclose.ts:168-190 | the two loops give the length-prefixed concatenation and refuse exactly the fields of 2^32 bytes or more |
| Disclose.LenDelimitedIsInjective | src/lib/disclose.ts:168-190 | no two lists of short fields share a length-delimited form |
| Disclose.CommitmentPreimageNamesClaim | src/lib/disclose.ts:203-217 | a commitment preimage determines the salt bytes and the canonical claim |
| Disclose.CommitmentSpelled | src/lib/disclose.ts:203-217 | a commitment is the hex hash of the separator, the salt after its length and the canonical claim after its length, and exists exactly for a decodable salt and canonicalisable claim, both short |
| Disclose.RevealBodyNamesChallenge | src/lib/disclose.ts:369-377 | what a reveal signature covers determines the whole challenge and the commitment |
| Disclose.RevealSpelled | src/lib/disclose.ts:392-446 | a reveal is produced exactly when salt and claim open to the recorded commitment, and signs verifier, scope, nonce, expiry and commitment, each after its length, under the reveal domain |
| Disclose.PassesExactlyWhen | src/lib/disclose.ts:503-624 | passes if and only if the scope option is well formed, audience, nonce and scope are the expected ones, the expiry lies ahead, the salt is hex of at least 16 bytes, the recomputed commitment climbs the path to the signed root, and 64 signature bytes verify under the 32-byte presentation key over that very challenge and commitment |
| Disclose.ChallengeFailureIsNamed | src/lib/disclose.ts:503-560 | a reveal that does not answer the challenge is told the first mismatch in the order audience, nonce, scope, expiry; a misconfigured verifier throws |
| Disclose.OpeningFailureIsNamed | src/lib/disclose.ts:560-600 | after that a bad salt, a commitment that cannot be computed, and a path that misses the root are told apart |
| Disclose.HonestRevealPasses | src/lib/disclose.ts:392-624 | a produced reveal over the built path passes the verifier it names if and only if it has not expired |
| Disclose.AcceptedClaimWasAttested | src/lib/disclose.ts:503-624 | an accepted claim under a root built from attested commitments has the salt and canonical form of an attested one, or a collision between verifier's and attester's preimages is exhibited; that the holder signed is in `Disclose.PassesExactlyWhen` |
| SealedBid.BuildCommitmentPreimage | src/lib/sealed-bid.ts:125-131 | the buffer holds the canonical bid, one NUL and the salt |
| SealedBid.CommitSealedBid | src/lib/sealed-bid.ts:160-174 | commits exactly for a salt of at least 16 bytes and a canonicalisable bid, to the hash of the preimage |
| SealedBid.VerifyReveal | src/lib/sealed-bid.ts:190-227 | the running-difference comparison accepts exactly the openings of the commitment |
| SealedBid.OpensExactlyWhen | src/lib/sealed-bid.ts:190-227 | accepted if and only if salt and bid are readable, the salt has 16 bytes or more, and the committed text, lower-cased and without 0x, is the hex hash of canonical bid, NUL and salt |
| SealedBid.PreimageIsInjective | src/lib/sealed-bid.ts:125-131 | with NUL-free canonical bids the preimage splits in one way |
| SealedBid.AcceptedRevealIsTheCommittedBid | src/lib/sealed-bid.ts:190-227 | binding: an accepted reveal has the committed canonical bid and salt, or the two preimages collide |
| SealedBid.HonestRevealOpens | src/lib/sealed-bid.ts:160-227 | the committer's bid and salt open the commitment in every accepted spelling |
| Consent.ResolveEffectiveConsent | src/lib/consent.ts:261-345 | the fold over the ledger computes the founder-and-last-word meaning of the scope's authentic records |
| Consent.BodyJsonSays | src/lib/consent.ts:146-166 | what a record's id and signature cover: every field, keys lower-cased, the commitments as a sorted set, `supersedes` only when given |
| Consent.AuthenticExactlyWhen | src/lib/consent.ts:169-225 | authentic if and only if the action is known, the id is the hex hash of separator and body, and 64 signature bytes verify under the 32-byte grantor key over that body |
| Consent.EffectiveConsentIsTheFoundersLastWord | src/lib/consent.ts:261-345 | said of the ledger by positions: none without a counted grant of the scope; else the last counted record by the first grantor from its first grant on decides, a revoke as it stands, a grant by its expiry |
| Consent.FilterScope | src/lib/consent.ts:261-345 | the filter keeps, in order, the records of the scope that are authentic when that is required |
| Consent.FoldScope | src/lib/consent.ts:261-345 | the fold remembers the establishing key, the grant in force and the revoke after it; at most one of the two is set |
| Consent.FoldFindsLastWord | src/lib/consent.ts:261-345 | the record the fold names is the last one by the first grantor from its first grant on |
| Consent.GrantedMeansLastWordIsALiveGrant | src/lib/consent.ts:261-345 | granted with a grant if and only if it is the first grantor's last counted word and an unexpired grant |
| Consent.InertRecordsChangeNothing | src/lib/consent.ts:261-345 | unauthentic records, other scopes, other keys after the first grant and revokes before it, inserted anywhere, never change the result |
| Consent.InMemoryConsentAnchor.Append | src/lib/consent.ts:425-444 | appends an unseen record, absorbs a seen one, rejects an unauthentic one when validating |
| Consent.ReplaysAreAbsorbed | src/lib/consent.ts:420-449 | any sequence of replays through the anchor, re-signed or re-spelled, leaves the records unchanged |
| Consent.ReplayOnPlainLedgerRevives | src/lib/consent.ts:261-345 | the input that does it: without deduplication a repeated unexpired grant is in force again after its revocation, while the anchor absorbs it |
| Consent.RevokedConsentRevivesExactlyWhen | src/lib/consent.ts:261-345 | after a revocation any appended records, replayed or not, put consent back in force if and only if the founder's last counted word among them is an unexpired grant |
| Consent.AppendRevivesExactlyWhen | src/lib/consent.ts:261-345 | one appended record revives a revoked scope if and only if it counts there and is an unexpired grant by the founder |
| Consent.BridgePassesExactlyWhen | src/lib/consent.ts:359-560 | passes if and only if the scope's effective consent is a grant by the expected grantor to this verifier that lists the recomputed commitment, and the disclosure itself passes under that scope |
| Dispute.InMemoryConsumptionStore.ConsumeIfAbsent | src/lib/dispute.ts:108-115 | test-and-set: true exactly for a key not seen, which is then seen |
| Dispute.FirstChallengeDivergence | src/lib/dispute.ts:396-409 | finds the first disclosure answering another challenge, or none exactly when all share one |
| Dispute.VerifyDisputeBundle | src/lib/dispute.ts:252-381 | passes exactly for a convincing bundle with a fresh key; only a pass changes the store, by that key |
| Dispute.ConvincingExactlyWhen | src/lib/dispute.ts:252-381 | convincing if and only if verifier id and nonce are given, all disclosures answer one challenge that names both in an unguessable scope, the presenter signed the lower-cased root, and every disclosure passes the consent bridge with the presenter as the only grantor and signatures checked |
| Dispute.PassProvesEvidence | src/lib/dispute.ts:252-381 | a pass means the presenter signed the root, and every claim is covered by that presenter's live grant for this audience and attested under the root, or a collision is exhibited |
| Dispute.PassProvesReveals | src/lib/dispute.ts:252-381 | every disclosure of a passing bundle opens to a commitment under the signed root, and the presenter's key signed exactly the resolver's challenge over that commitment, not yet expired |
| Dispute.KeyNamesChallenge | src/lib/dispute.ts:390-392 | for one verifier id the consumption key determines scope (up to case) and nonce |
| Dispute.KeyNamesVerifier | src/lib/dispute.ts:390-392 | ids without the separator never share a key |
| Dispute.VerifiersShareAKeyExactlyWhen | src/lib/dispute.ts:390-392 | with accepted scopes two non-empty verifier ids of different length can share a key if and only if the longer is the shorter, a separator and a lower-case accepted scope up to its end or next separator; distinct ids of one length never do |
| Dispute.OneCallMeans | src/lib/dispute.ts:252-381 | one uninterrupted call of the interleaved protocol does what the method's contract says: it passes exactly for a convincing bundle with a fresh key, and burns that key only |
| Dispute.EachChallengePassesOnce | src/lib/dispute.ts:252-381 | under any interleaving of workers on one store, one verifier accepts a (scope, nonce) at most once |
| DeliveryStore.FileDeliveryStore.ScanBuffer | src/live/delivery-store.ts:54-79 | the scan loop's index, corrupt count and failure are those of a fold over the file's lines |
| DeliveryStore.FileDeliveryStore.Load | src/live/delivery-store.ts:54-79 | says of the file's lines what loading does: the failures, the index and the counts of the next three rows |
| DeliveryStore.LoadFailsExactlyWhen | src/live/delivery-store.ts:54-79 | a scope mismatch if and only if the non-empty file has no complete value line or the header of its first one is not this scope's; a type error if and only if some line is null in a file that is not foreign |
| DeliveryStore.LoadIndexesLastRecords | src/live/delivery-store.ts:54-79 | a successful load maps every key to the extent of the last complete line after the header that is a record of it, and counts the other non-blank lines and a torn tail |
| DeliveryStore.LinesSplitTheFile | src/live/delivery-store.ts:54-66 | the lines are the bytes between consecutive newlines, each starting where the one before ends, and nothing after the last |
| DeliveryStore.FileDeliveryStore.Get | src/live/delivery-store.ts:80-89 | parses the indexed extent of the file |
| DeliveryStore.FileDeliveryStore.Append | src/live/delivery-store.ts:90-107 | writes a header or a terminating newline when needed, then the row, and indexes the row's extent |
| DeliveryStore.LoadAgrees | src/live/delivery-store.ts:54-89 | after a load, get returns for every key the payload of the last record a line-by-line parse finds |
| DeliveryStore.ParseFindsTheLastRecord | src/live/delivery-store.ts:54-89 | the fresh parse finds for a key exactly the payload of the last line that holds a record of it |
| DeliveryStore.RecordsAfterAppend | src/live/delivery-store.ts:90-107 | an append adds its record last; a torn tail surfaces before it exactly when it is a whole record |
| DeliveryStore.AppendKeepsAgreementExactlyWhen | src/live/delivery-store.ts:54-107 | index and fresh parse still agree after an append if and only if there was no torn whole row of another key with a new payload |
| DeliveryStore.LostNewlineBreaksAgreement | src/live/delivery-store.ts:54-107 | the disagreement is reachable: a crash that loses only a row's newline, a load, and an append of another key |
| DeliveryStore.SessionAgrees | src/live/delivery-store.ts:54-107 | from an empty or newline-terminated file of this scope, a load and any appends keep index and fresh parse in agreement, and the records are the old ones then the written ones |
| DeliveryStore.CrashRunsKeepSurvivors | src/live/delivery-store.ts:54-107 | over any run of appends and crashes from an empty or newline-terminated loadable file: unless the first write was cut inside the header the file stays loadable, get agrees with a fresh parse, and that parse holds exactly the survivors |
| DeliveryStore.RefusedExactlyWhen | src/live/delivery-store.ts:54-107 | a run leaves a refused file if and only if every write before some crash left nothing and that crash cut inside the header, so no append had returned |
| DeliveryStore.ReturnedAppendIsRecovered | src/live/delivery-store.ts:54-107 | a payload whose append returned, the first one on an empty file included, is recovered after any later crashes, unless its key is written again |
| DeliveryStore.CrashInsideHeader | src/live/delivery-store.ts:90-107 | a crash that leaves part of the first header line makes the next load refuse the file; one that leaves nothing does not |
| PayPolicy.SpentTodayFromJournal | src/live/pay-policy.ts:164-184 | the loop sums the counted rows of the reading's UTC date, throwing on an unreadable counted row |
| PayPolicy.RowIsAdded | src/live/pay-policy.ts:164-184 | each row that records a spend adds its decimal amount to the sum of its own date only, rows that record none add nothing, and an unreadable one of any date makes the sum throw |
| PayPolicy.ReadableSpendIsTheTally | src/live/pay-policy.ts:164-184 | where the source's sum does not throw it is the tally, in which an unreadable row counts nothing |
| PayPolicy.UncountedRowsChangeNothing | src/live/pay-policy.ts:164-184 | preparation, aborted and resolution rows, inserted anywhere, leave every day's sum and tally unchanged |
| PayDemAuthorization.PayDemAuthorizationGate.Authorize | src/live/pay-dem-authorization.ts:59-112 | PROCEED if and only if the lease is free, the journal is readable, the kill switch was read as absent, the host is allowed and neither cap is exceeded, and then the lease is kept; otherwise the rule of the first condition to fail, and the lease is as before |
| PayDemAuthorization.PayDemAuthorizationGate.JournalOutcome | src/live/pay-dem-authorization.ts:114-141 | resolutions and leaseless aborts are appended as they are; anything else needs the lease, must match it, and ends it |
| PayDemAuthorization.StepKeepsSafe | src/live/pay-dem-authorization.ts:58-151 | every admissible step of any gate, crash or take-over keeps lock discipline and keeps every date's tally, plus the one amount that may still be spent, within the cap |
| PayDemAuthorization.DailyCapHolds | src/live/pay-dem-authorization.ts:58-151 | over every interleaving of any number of gates on one journal, what the journal records as spent on any date stays within the daily cap, also when other rows are unreadable |
| PayDemAuthorization.ProceedsSawNoKillSwitch | src/live/pay-dem-authorization.ts:58-151 | over every interleaving of any number of gates there are no more PROCEEDs than authorisation steps whose kill switch was read and absent |
| PayDemAuthorization.ProceedingStepSpelled | src/live/pay-dem-authorization.ts:59-112 | a step adds at most one PROCEED, and one that does read the journal, saw no kill switch, and met host and both caps |
| PayDemAuthorization.AuthorisedPaymentRunsThrough | src/live/pay-dem-authorization.ts:59-141 | with the lock free and every condition met, a payment runs through from lease to journal: one PROCEED, its row added, the lock free again, every other gate as before |
| PayDemAuthorization.OthersWait | src/live/pay-dem-authorization.ts:59-141 | while a gate is at work no other step moves the lock or its state, gives a PROCEED or writes a spend |
| PayDemAuthorization.OneCountedRowPerProceed | src/live/pay-dem-authorization.ts:58-151 | counted rows written plus authorisations still unspent never exceed the PROCEEDs given, whatever the journal held before |
| Bundles.CopiesShareScope | src/lib/bundle-signed-scope-v1.ts:25-31 | two copies have one signed scope, hence one hash, exactly when they differ in anchoring role and signatures alone |
| VerifyBundle.SignatureTextWorks | src/lib/verify-bundle-v1.ts:165-182 | the signature decoder undoes the base64 the emitter writes |
| VerifyBundle.StructuralErrors | src/lib/verify-bundle-v1.ts:184-258 | the collected list is empty exactly for a structurally valid bundle: discriminator, members, phases, parties, references, fault rule and signatures |
| VerifyBundle.StructuralSpelled | src/lib/verify-bundle-v1.ts:184-258 | structural validity condition by condition, literal names and widths included |
| VerifyBundle.MeetsSignerRule | src/lib/verify-bundle-v1.ts:292-314 | the signer rule: only listed signers, and unless aborted a buyer, a seller and everybody's signature |
| VerifyBundle.SignerRuleSpelled | src/lib/verify-bundle-v1.ts:292-314 | the rule over positions of parties and signatures: every signer a party, and unless the outcome is an abort a buyer, a seller and a signature by every party |
| VerifyBundle.CheckSpelled | src/lib/verify-bundle-v1.ts:316-331 | a signature passes if and only if it is ed25519, readable, and verifies under the claim's own or else the resolved key over the hex hash in the domain of the bundle's version; when it fails, and when it stays unverifiable |
| VerifyBundle.VerifyBundle | src/lib/verify-bundle-v1.ts:269-352 | decision, signer rule, checks and hash together |
| VerifyBundle.VerdictSpelled | src/lib/verify-bundle-v1.ts:269-352 | rejected as malformed, throwing on an uncanonicalisable scope, or judged: reject if and only if the signer rule or a check fails, indeterminate when enforcing with a check that did not pass, else accept |
| VerifyBundle.AcceptedBundleIsSigned | src/lib/verify-bundle-v1.ts:269-352 | enforcing acceptance means every signature is a listed party's over this scope, and unless aborted every party signed |
| VerifyBundle.ModesAgreeOnRejection | src/lib/verify-bundle-v1.ts:333-350 | both modes reject the same bundles; enforcing only turns acceptance into indeterminate |
| VerifyBundle.EmittedBundleIsAccepted | src/lib/emit-bundle-v1.ts:36-48 | a well-formed bundle all of whose parties sign is accepted in either mode with every check passing |
| VerifyBundle.AnchoringRoleIsUnsigned | src/lib/bundle-signed-scope-v1.ts:25-31 | flipping the anchoring role changes no hash, no check and no signer rule |
| TwoSided.PresentCopyIsTheParty | src/lib/verify-bundle-v1.ts:723-752 | a copy counts as present only at its derived address or in a record owned by the party's own key |
| TwoSided.FetchSpelled | src/lib/verify-bundle-v1.ts:723-752 | what lies at the derived address wins, readable or not; where nothing does, the record of that name counts exactly if its owner is the party's own key up to case and 0x, a failed resolution fails, and without a key there is nothing |
| TwoSided.CopiesSpelled | src/lib/verify-bundle-v1.ts:783-923 | passes if and only if one copy alone or both stand in place, belong to the local bundle and are accepted; undecided when a read fails, nothing is there, or a copy does not parse |
| TwoSided.MisplacedCopyFails | src/lib/verify-bundle-v1.ts:783-853 | a copy of another job, with another role than its address, or alone and unlike the local bundle fails; alone and not accepted it stays undecided |
| TwoSided.PairInPlaceSpelled | src/lib/verify-bundle-v1.ts:853-923 | of two copies in place: strangers to the local bundle fail, then a rejected copy fails, then an indeterminate one leaves it undecided, then disagreement fails |
| TwoSided.PassBindsLocal | src/lib/verify-bundle-v1.ts:783-923 | a pass means the local bundle is canonically a present copy whose anchoring role matches its address, or a collision is exhibited |
| TwoSided.PassVouchesForCopies | src/lib/verify-bundle-v1.ts:783-923 | a pass means no read failed, every present copy is accepted in the caller's mode, and two present copies do not diverge |
| TwoSided.PassingLocalIsAccepted | src/lib/verify-bundle-v1.ts:783-923 | with injective JCS a passing local bundle is itself an anchored copy signed by every party unless aborted, or a collision exists |
| TwoSided.EmittedCopiesVerify | src/lib/verify-bundle-v1.ts:783-923 | when all parties sign, the two copies hash equal, are accepted, and two-sided verification of either passes if and only if repeated phase indices read the same |
| TwoSided.LoneEmittedCopyVerifies | src/lib/verify-bundle-v1.ts:812-853 | a fully signed copy anchored on one side alone passes |
| TwoSided.RollupPassesOnlyOnSuccess | src/lib/verify-bundle-v1.ts:965-970 | the rollup passes if and only if base, two-sided check (unless skipped) and every walk step succeed |
| TwoSided.RollupFailsOnAnyFailure | src/lib/verify-bundle-v1.ts:965-970 | and fails if and only if the base rejects, the two-sided check fails or some step fails |
| BundleConsistency.CollectPhases | src/lib/bundle-consistency-v1.ts:71-78 | the loop keeps the last entry of each index |
| BundleConsistency.CanonicalDivergenceV1 | src/lib/bundle-consistency-v1.ts:85-116 | null exactly when the copies agree; any contradiction returned is one |
| BundleConsistency.AgreementSpelled | src/lib/bundle-consistency-v1.ts:85-116 | agreement over positions: equal outcomes, the same indices, and the last entries of each index with equal outcome and error class |
| BundleConsistency.WalkSpelled | src/lib/verify-bundle-v1.ts:692-709 | agreement of the walk over positions: every entry of the first copy, not only the last of its index, reads like the second's last |
| BundleConsistency.AgreementIsAnEquivalence | src/lib/bundle-consistency-v1.ts:85-116 | not diverging is reflexive, symmetric and transitive |
| BundleConsistency.V1Divergence | src/lib/verify-bundle-v1.ts:692-709 | the verifier's own walk finds nothing exactly under its entry-by-entry agreement |
| BundleConsistency.V1AgreementIsAgreementOfAConsistentCopy | src/lib/verify-bundle-v1.ts:692-709 | the walk finds nothing if and only if the copies agree and the first copy's repeated indices read the same |
| BundleConsistency.DefinitionsCoincideOnDistinctIndices | src/lib/verify-bundle-v1.ts:692-709 | with distinct indices both definitions coincide |
| BundleConsistency.RepeatedIndexDivergesFromItself | src/lib/verify-bundle-v1.ts:692-709 | with a repeated index the walk is neither reflexive nor symmetric |
| BundleConsistency.BundleConsistencyV1 | src/lib/bundle-consistency-v1.ts:131-178 | verdict and rejections of the two-copy classification |
| BundleConsistency.ClassificationSpelled | src/lib/bundle-consistency-v1.ts:131-178 | the verdict by which copies are present with a valid signature set, and exactly when each rejection is recorded |
| BundleConsistency.ClassificationIsSymmetric | src/lib/bundle-consistency-v1.ts:131-178 | swapping buyer and seller relabels the roles and changes nothing else |
| BundleConsistency.StructuralClassificationIsSymmetric | src/lib/bundle-consistency-v1.ts:62-178 | the same with the default classifier, which counts signature entries |
| BundleBinding.ResolveBundleBinding | src/lib/bundle-binding-v1.ts:214-355 | filtering, authenticating, bucketing, sorting, fetching, grouping and winner selection meet an order-free meaning of the set of bindings, and a present result names the first listed front-runner; the tests it applies to a binding are in `BundleBinding.TestsSpelled`, its answers in the three rows after that |
| BundleBinding.TestsSpelled | src/lib/bundle-binding-v1.ts:126-262 | a tuple is authentic if and only if its two signer claims are one, its algorithm is ed25519 and its decoded signature verifies under the signer's key in the binding domain over the hex hash of the canonical tuple; and when it is here, matches and is authorised |
| BundleBinding.PresentCopyIsSigned | src/lib/bundle-binding-v1.ts:126-355 | a present result names a listed binding whose tuple is so signed, fits the request and is authorised, and the fetched copy there gives the signer the role, has the promised hash, a permitted fault and valid signatures |
| BundleBinding.ForgedTupleDecidesNothing | src/lib/bundle-binding-v1.ts:129-148 | a binding whose signature does not verify, inserted anywhere, changes neither whether a copy is present nor which |
| BundleBinding.DispositionSpelled | src/lib/bundle-binding-v1.ts:214-355 | what a result that is not present says: rejected and undecided told apart by which bindings are here, signed, fitting, authorised, good or faulty |
| BundleBinding.EvaluationSpelled | src/lib/bundle-binding-v1.ts:281-314 | a fetched copy is inert, invalid or valid, by roster, hash, fault and signatures, and fully signed if and only if every party of its roster signed |
| BundleBinding.Authenticate | src/lib/bundle-binding-v1.ts:234-249 | rejects on any authenticated tuple that does not match, and notes unauthenticated ones |
| BundleBinding.GroupBy | src/lib/bundle-binding-v1.ts:266-271 | the Map loop keeps each key's items in order and keys in insertion order |
| BundleBinding.SortBuckets | src/lib/bundle-binding-v1.ts:272-279 | each signer's bucket comes out sorted, with the same members, ties in their listed order; stops exactly when one exceeds the budget |
| BundleBinding.EvaluateAll | src/lib/bundle-binding-v1.ts:281-314 | keeps exactly the valid fetched copies, in the order visited, and notes whether any present one was invalid |
| BundleBinding.NameWinner | src/lib/bundle-binding-v1.ts:322-347 | names a winner exactly when one canonical form is left: the first visited of those that precede every copy of that form |
| BundleBinding.ResolutionIsDetermined | src/lib/bundle-binding-v1.ts:214-355 | two results of the same list of bindings are equal |
| BundleBinding.OrderIsIgnoredExactlyWhen | src/lib/bundle-binding-v1.ts:272-355 | every permutation of the bindings resolves alike if and only if the result is not present or all front-runners were published at one native address |
| BundleBinding.ResolutionIgnoresOrder | src/lib/bundle-binding-v1.ts:272-355 | so the order never matters when no signer published two different native addresses that compare equal |
| BundleBinding.TwinsGoByInputOrder | src/lib/bundle-binding-v1.ts:272-355 | and the input on which it does: of two valid copies of one form and standing, from one signer, at different addresses that compare equal, the one listed first is named |
| BundleBinding.PresentNamesTheBest | src/lib/bundle-binding-v1.ts:322-355 | the named copy is fully signed if any of its form is, has the least address at that standing, and no other form has equal standing |
| BundleBinding.PresentCopyIsVouchedFor | src/lib/bundle-binding-v1.ts:129-207 | a present copy has the job and scope hash a signed tuple promised, a permitted fault and all required signatures, and the tuple's signer holds the role |
| BundleBinding.OutsidersChangeNothingExactlyWhen | src/lib/bundle-binding-v1.ts:214-355 | inserting anywhere a binding that stands for nothing changes neither presence nor the named copy, if and only if there was no present result, or the tuple, if authentic, matches and its signer stays within the budget; one whose signer is no candidate spends no budget |
| FaultRules.CollectRoleClaims | src/lib/bundle-binding-v1.ts:156-166 | the loop builds the roster, or null for an empty or malformed party list |
| FaultRules.RosterSpelled | src/lib/bundle-binding-v1.ts:156-166 | there is a roster exactly when there are parties, all with known role and readable claim; a key's last party gives its role |
| FaultRules.RosterIsOfTheParties | src/lib/bundle-binding-v1.ts:156-166 | roster keys are exactly the parties' keys, and its roles are known roles of listed parties |
| FaultRules.AllSign | src/lib/bundle-binding-v1.ts:185-207 | valid exactly when every carried signature is a roster member's over the hash; the set is who signed |
| FaultRules.SignaturesSpelled | src/lib/bundle-binding-v1.ts:185-207 | valid signatures over positions: some, each ed25519, by a key of the roster, verifying over the hex hash in the domain; fully signed when every roster key is a signer's |
| FaultRules.PermissionSpelled | src/lib/bundle-binding-v1.ts:168-183 | a faulted party is permitted exactly as the outcome says: none, the anchoring role, or another role of the roster |
| FaultBundles.PhaseSummaryDiverges | src/lib/bundle-binding-v1.ts:492-517 | diverges exactly on an unkeyable or repeated index, or a shared index with another kind or outcome |
| FaultBundles.PhaseDivergenceIsSymmetric | src/lib/bundle-binding-v1.ts:492-517 | the two copies may be swapped |
| FaultBundles.ClassesSpelled | src/lib/bundle-binding-v1.ts:396-408 | which outcomes form one class, both abort spellings and both failure spellings together |
| FaultBundles.BlameSpelled | src/lib/bundle-binding-v1.ts:422-441 | the implied fault set: the declared party of a fault bundle if permitted, else nobody, the anchoring role, or every other role, as the outcome says |
| FaultBundles.GoodCopiesAreAdmissible | src/lib/bundle-binding-v1.ts:521-560 | admissible if and only if anchored in its declared role, canonicalisable, with a roster, a known class, somebody to blame and valid signatures in its version's domain |
| FaultBundles.ResolveFaultBundlePair | src/lib/bundle-binding-v1.ts:652-702 | unified, as the first copy, exactly when all copies are admissible and concur with the first |
| FaultBundles.UnifiesExactlyWhen | src/lib/bundle-binding-v1.ts:652-702 | a group unifies if and only if it is not empty, all copies are good, and each has the first one's class, the same blamed parties and fitting phases |
| FaultBundles.ConvergingGroupHasOneFault | src/lib/bundle-binding-v1.ts:652-702 | in a converging group of any size all copies share class and fault set, and all fault bundles name one faulted party |
| FaultBundles.CopiesConcurPairwiseExactlyWhen | src/lib/bundle-binding-v1.ts:676-702 | all copies of a converging group concur with each other if and only if the later ones agree on the phase indices the first one leaves out |
| FaultBundles.ExplicitFaultIsTheLegacyFault | src/lib/bundle-binding-v1.ts:422-441 | on a buyer-and-seller roster a permitted explicit fault is exactly the legacy-derived set |
| FaultBundles.ResolveMixedVersionPair | src/lib/bundle-binding-v1.ts:719-763 | unified exactly when at least two admissible copies reconcile with the first, as the authoritative copy |
| FaultBundles.MixedVersionsUnifyExactlyWhen | src/lib/bundle-binding-v1.ts:719-763 | a mixed-version group of two or more unifies if and only if all copies are good and each has the first one's class, a blamed party in common and fitting phases |
| FaultBundles.AuthoritySpelled | src/lib/bundle-binding-v1.ts:719-763 | the unified bundle is the first with a `faultBundleVersion`, else the first |
| FaultBundles.TwoCopiesUnifyExactlyWhenTheyAgree | src/lib/bundle-binding-v1.ts:719-763 | two copies of a buyer-and-seller session unify if and only if class, absolute fault and shared phases agree, in either order |
| FaultBundles.CopiesReconcilePairwiseExactlyWhen | src/lib/bundle-binding-v1.ts:705-763 | all copies of a reconciling mixed-version group reconcile with each other if and only if the later ones share a fault and agree on the phase indices the first one leaves out |
| FaultBundles.FirstCopyHidesADisagreement | src/lib/bundle-binding-v1.ts:705-763 | the input on which they do not: in every completed session of three parties a first copy without an index unites two copies that contradict each other there, and another order of the same copies is refused |
| FaultBundles.UnifiedBundleIsAFaultBundleExactlyWhen | src/lib/bundle-binding-v1.ts:719-763 | in every reconciling group the unified bundle is a copy of it, and a fault bundle if and only if some copy is a plain fault bundle or the first copy is a fault bundle |
| FaultBundles.EvidenceBoundCopyIsPassedOver | src/lib/bundle-binding-v1.ts:719-763 | a legacy copy and an evidence-bound fault bundle are constructed that unify in either order, as whichever comes first |
| Price.ScaledOrderIsRationalOrder | src/lib/tank-lock-evidence.ts:229-246 | the scaled integers order two canonical decimals exactly as the rationals they denote |
| Price.CanonicalKeepsRational | src/types/settle.ts:68-116 | trimming zeros and padding to the declared precision never change the rational |
| Price.CanonicalPriceDenotesAmount | src/types/settle.ts:68-116 | the canonical text is a decimal denoting what was written |
| Price.ReadablePriceSpelled | src/types/settle.ts:68-116 | a price has a canonical text if and only if the trimmed amount is a decimal and a declared precision is non-negative and wide enough |
| Price.CanonicalPriceSpelled | src/types/settle.ts:68-116 | the text has no needless leading zero, exactly the declared number of fraction digits or no trailing zero, and a minus if and only if the value is negative |
| Price.ParseSpelled | src/types/settle.ts:68-84 | a numeral is a decimal, alone or after a plus, or after a minus that makes it negative |
| Price.TrimSpelled | src/types/settle.ts:68-84 | trimming cuts the white space at both ends, all of it and nothing else |
| Price.GuardsDecideSign | src/lib/tank-lock-evidence.ts:166-192 | the textual sign guards hold exactly for positive and for non-negative rationals |
| Price.ComparisonIsExact | src/lib/tank-lock-evidence.ts:195-226 | less-or-equal is exactly same asset and rational order |
| Price.PriceEqualExactlyWhen | src/lib/tank-lock-evidence.ts:195-202 | equality is exactly same asset, equal rationals and equally many fraction digits in the canonical form |
| Price.EqualityIsExactAtOnePrecision | src/lib/tank-lock-evidence.ts:195-202 | when both prices declare the same precision, or neither does, equality is exactly same asset and equal rationals |
| Price.DeclaredPrecisionSeparatesEqualAmounts | src/lib/tank-lock-evidence.ts:195-202 | the inputs that do it: an amount declared with more decimals than it has differs from itself undeclared, though each is at most the other |
| Quorum.CountSigners | src/lib/settlement-evidence-verifier.ts:437-468 | the loop's set is the distinct authorised signers with a verifying signature |
| Quorum.QuorumSpelled | src/lib/settlement-evidence-verifier.ts:437-478 | enough signers if and only if there are that many distinct authorised shards each with a 64-byte signature that verifies under its 32-byte key over the commitment |
| Quorum.QuorumConfiguredExactlyWhen | src/lib/settlement-evidence-verifier.ts:312-322 | a quorum is positive and more than half of a declared set |
| Quorum.ExtraSignatures | src/lib/settlement-evidence-verifier.ts:437-468 | an extra entry anywhere never lowers the count; a malformed, unauthorised or repeated one never changes it |
| Quorum.InsertionKeepsCarried | src/lib/settlement-evidence-verifier.ts:437-478 | whatever entry is inserted into any of the three verifiers' evidence, a carried quorum stays carried |
| Quorum.UselessEntryDecidesNothing | src/lib/settlement-evidence-verifier.ts:437-478 | an entry that is malformed, unauthorised or repeated decides nothing, also when it is the only one |
| Quorum.MajoritiesIntersect | src/lib/settlement-evidence-verifier.ts:312-322 | two majorities of one set share a member |
| Deposits.BoundDepositMatchesAmount | src/lib/settlement-evidence-verifier.ts:324-374 | a bound deposit carries a positive rational amount equal to the claimed one, in the same asset |
| Deposits.DepositCheckSpelled | src/lib/settlement-evidence-verifier.ts:324-374 | a deposit backs a claim if and only if both amounts are positive and equal, it is confirmed with a time and as deeply as it asks for, and it is this bridge's |
| BridgeRelease.VerifyBridgeRelease | src/lib/settlement-evidence-verifier.ts:291-478 | passes exactly with all preconditions and a quorum of distinct authorised signers; each early verdict is the first failing check's |
| BridgeRelease.PassesExactlyWhen | src/lib/settlement-evidence-verifier.ts:291-478 | passes if and only if a majority is asked for, the deposit backs the claim, is known not to be consumed and was confirmed strictly before its window closes, and enough listed shards signed this commitment |
| BridgeRelease.CommitmentSays | src/lib/settlement-evidence-verifier.ts:219-231 | what shards sign: bridge, canonical amount and asset, deposit and release transaction, and nothing else |
| BridgeRelease.ExtraSignatureKeepsPass | src/lib/settlement-evidence-verifier.ts:437-478 | no inserted signature turns a pass into a non-pass |
| BridgeRelease.UselessSignatureNeverHelps | src/lib/settlement-evidence-verifier.ts:437-478 | a signature that cannot count changes nothing: with it the evidence passes if and only if it does without |
| TankRefund.VerifyTankRefund | src/lib/tank-refund-evidence.ts:209-391 | the same for refunds: after expiry, to the depositor, unconsumed, with a quorum |
| TankRefund.PassesExactlyWhen | src/lib/tank-refund-evidence.ts:209-391 | passes if and only if a majority is asked for, the deposit backs the claim and is known not to be consumed, the refund goes to its depositor at or after the lock's expiry, and enough listed shards signed this commitment |
| TankRefund.CommitmentSays | src/lib/tank-refund-evidence.ts:131-146 | what shards sign for a refund |
| TankRefund.ExtraSignatureKeepsPass | src/lib/tank-refund-evidence.ts:356-391 | no inserted signature turns a pass into a non-pass |
| TankRefund.UselessSignatureNeverHelps | src/lib/tank-refund-evidence.ts:356-391 | a signature that cannot count changes nothing: with it the evidence passes if and only if it does without |
| TankLock.VerifyTankLock | src/lib/tank-lock-evidence.ts:264-458 | passes exactly with all preconditions and a quorum |
| TankLock.PassesExactlyWhen | src/lib/tank-lock-evidence.ts:264-458 | passes if and only if a majority is asked for, the state is known, the deposit backs the claim and is not known to be consumed, a partial release is positive or zero and no more than the lock in its asset, and enough listed shards signed this commitment |
| TankLock.CommitmentSays | src/lib/tank-lock-evidence.ts:136-153 | what shards sign for a lock, exactly when its prices are readable |
| TankLock.ExtraSignatureKeepsPass | src/lib/tank-lock-evidence.ts:406-458 | no inserted signature turns a pass into a non-pass |
| TankLock.UselessSignatureNeverHelps | src/lib/tank-lock-evidence.ts:406-458 | a signature that cannot count changes nothing: with it the evidence passes if and only if it does without |
| TankLock.PassingLockIsBounded | src/lib/tank-lock-evidence.ts:304-385 | a passing lock is positive, and a partial release lies between zero and it, as rationals |
| TankLock.ReleaseCheckIsExact | src/lib/tank-lock-evidence.ts:304-385 | a partial release is refused exactly when its asset differs or it lies outside that range |
| BridgeLedger.ReleaseAndRefundShareASigner | src/lib/settlement-evidence-verifier.ts:312-478 | a passing release and refund under one authorised set of the declared size share a signer of both commitments |
| BridgeLedger.EveryDepositReleasedAtMostOnce | src/lib/settlement-evidence-verifier.ts:291-478 | with the ledger extended after each pass, no deposit is released twice, over any run |
| BridgeLedger.NoRefundAfterRelease | src/lib/tank-refund-evidence.ts:209-391 | a released deposit is never refunded afterwards, over any run |
| BridgeLedger.PaidOutTwiceExactlyWhen | src/lib/tank-refund-evidence.ts:209-391 | over any run a deposit ends up refunded and released if and only if a passing refund precedes its first passing release, and refunded twice if and only if two passing refunds precede any release |
| BridgeLedger.PayableDepositCanBePaidTwice | src/lib/tank-refund-evidence.ts:209-391 | the inputs that do it: every payable deposit has honestly signed evidence for a refund and a release, and for two refunds, that all pass |
| BridgeLedger.SomeDepositIsPayable | src/lib/settlement-evidence-verifier.ts:324-374 | and there are payable deposits |
| BridgeLedger.RecordingRefundsPaysEachOnce | src/lib/tank-refund-evidence.ts:209-391 | with the ledger extended after refunds too, over any run every deposit in the ledger is paid exactly once, by release or refund, and no other is |
| BridgeLedger.ReleasesAreConserved | src/lib/settlement-evidence-verifier.ts:291-478 | for every asset the total released equals the total of the consumed deposits, each counted once |
| BridgeLedger.RecordedPaymentsAreConserved | src/lib/tank-refund-evidence.ts:209-391 | with refunds recorded too, for every asset the total released and refunded equals the total of the paid deposits |
| SecureChannel.ComputeKeystream | src/lib/secure-channel.ts:205-222 | the block loop fills exactly the requested length, blockwise |
| SecureChannel.KeystreamSpelled | src/lib/secure-channel.ts:205-222 | byte k is byte k mod 32 of the HMAC over nonce and the big-endian block number k div 32 |
| SecureChannel.KeystreamIsPrefixStable | src/lib/secure-channel.ts:205-222 | a longer keystream extends a shorter one |
| SecureChannel.OpenUndoesSeal | src/lib/secure-channel.ts:252-300 | opening undoes sealing in the same channel, sender and sequence context |
| SecureChannel.SealSpelled | src/lib/secure-channel.ts:252-272 | the ciphertext is the plaintext mixed bytewise with the keystream of the message's own keys, and the tag authenticates context, nonce and ciphertext |
| SecureChannel.OpenSpelled | src/lib/secure-channel.ts:274-300 | opens if and only if the nonce has 24 bytes, the ciphertext is hex and the 32-byte tag is its tag; what comes out is the ciphertext mixed with the keystream |
| SecureChannel.LocalSecureChannel.Send | src/lib/secure-channel.ts:364-377 | numbers envelopes consecutively and signs the sealed payload |
| SecureChannel.LocalSecureChannel.Receive | src/lib/secure-channel.ts:379-422 | accepts a verified, newer envelope and records its number; a rejected one leaves the receiver unchanged |
| SecureChannel.AcceptedExactlyWhen | src/lib/secure-channel.ts:379-422 | accepted if and only if of this channel, signed by its sender, numbered from zero on and beyond the last accepted of that sender, and opening; then its number is recorded for that sender only |
| SecureChannel.AcceptedNumbersIncrease | src/lib/secure-channel.ts:379-422 | whatever is delivered, accepted numbers strictly increase per sender |
| SecureChannel.ReceiverAcceptsMaxima | src/lib/secure-channel.ts:349-423 | under loss, repetition and reordering exactly the left-to-right maxima are accepted, each with the plaintext sent under its number |
| SecureChannel.SendersDoNotInterfere | src/lib/secure-channel.ts:379-422 | whatever is delivered, what a receiver returns under one sender and the number it then requires are as if only that sender's readable envelopes had been delivered |
| SecureChannel.MaximaComeBackAmongOthers | src/lib/secure-channel.ts:349-423 | with other senders, forgeries and noise in between, exactly the maxima of an honest sender's envelopes come back under its name, as long as nobody else makes readable envelopes under it |
| SecureChannel.InOrderDeliveryIsAcceptedInFull | src/lib/secure-channel.ts:349-423 | for in-order delivery, even with losses, the receiver returns the plaintext of every delivered envelope, in order |
| Addressing.DecodeUndoesEncode | src/dacs1/addressing.ts:48-62 | cf4Decode undoes cf4Encode on every string |
| Addressing.EncodingSpelled | src/dacs1/addressing.ts:48-52 | encoding goes character by character |
| Addressing.DecodingSpelled | src/dacs1/addressing.ts:55-62 | a % and two hex digits are read as the character of that code, and any other % is refused |
| Addressing.ParserInvertsPrinter | src/dacs1/addressing.ts:90-116 | the parser accepts exactly what the printer returns, and returns its tuple |
| Addressing.NameIsInjectiveOnListings | src/lib/locator-form.ts:26-28 | program names tell listing addresses apart although encoded claims contain %3A too |
| Addressing.NamesCoincideExactlyWhen | src/lib/locator-form.ts:26-28 | two strings get one program name if and only if they read alike with every %3A as a colon |
| Addressing.NameIsIdempotent | src/lib/locator-form.ts:25-28 | naming a name changes nothing |
| Addressing.NameConfusesEscapedColon | src/lib/locator-form.ts:26-28 | on arbitrary strings a colon and its escape get one name |
| SignatureText.ExactlyTwoSpellings | src/lib/verify-bundle-v1.ts:165-182 | each 64-byte signature has exactly two accepted spellings, its canonical base64 and base64url (RFC 4648, sections 3.5, 4 and 5), and nothing else decodes |
| ByteStrings.HexRoundTrip | src/lib/verify-bundle.ts:59-77 | hexToBytes undoes bytesToHex, which writes lower case |
| ByteStrings.HexIsReadByPairs | src/lib/verify-bundle.ts:59-72 | after an optional 0x each byte is two hex digits of either case, sixteens first; anything else is refused |

## Left out

- Network, RPC, file-system, wallet and CLI code: the disk is a byte string, reads of anchors and fetches are total functions.
- SHA-256, HMAC, HKDF, Ed25519, Unicode normalisation, JCS and UTF-8 themselves: parameters, see above.
- `claimKey`, `keyBytes`, `publicKeyFor`, date parsing and URL host parsing: parameters; no result depends on how a claim is spelled.
- Values of the wrong JSON type inside bundles, bindings and rows: records are typed, a missing or ill-typed optional member is `None`.
- Letter case outside ASCII, and strings outside the Basic Multilingual Plane, where Dafny's character order and UTF-16 code-unit order may differ.
- Human-readable reasons and details: verdicts carry a short tag or nothing.
- Appends to a delivery file whose load was refused: a run with crashes attempts none after that, since the load at startup throws.
- Stale-lock heuristics by process id and file time: a lease is an atomic test-and-set, taken over only from a dead holder; calls on one gate do not overlap.
- `beforeBroadcast`: repeats the day and kill-switch tests and writes nothing.
- Timing of comparisons: running differences are modelled as Booleans.
- Sequence numbers beyond 2^53 and fields of 2^32 bytes as runtime limits of numbers and buffers.
- The `walkV1AttestationRefs` walk: its steps are a parameter of the rollup.
- `resolveFaultBundlePointer`, the L2PS façade, `mintConsentReceiptId`, `assembleDisputeBundle` and the enumerated shape validators: straight-line checks that would add only easy members.
- BundleBinding.ResolveBundleBinding: takes `localeCompare` to be a total preorder, which it is for one locale; the order results need no such assumption.
- DeliveryStore.FileDeliveryStore.Load: returns its keys as a set; the order of map keys is not modelled.
- TwoSided.PassBindsLocal: anchored data that parses to JSON but not to a bundle record is not modelled.
- BridgeLedger.ReleasesAreConserved: assumes proofs with one deposit id describe one deposit, which the verifier takes from its caller.
- BridgeLedger.RecordedPaymentsAreConserved: the same assumption; the repository itself leaves extending the ledger to its caller.
