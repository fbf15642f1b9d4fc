# Lk-TRS in Dafny

A model of Lk-TRS, a k-times traceable ring signature with a q-SDH accumulator, and proofs about it.
It covers the native Go profile (`src/nativeproof`) - accumulator, circuit relation, tracing,
registry, wallet vault, service, codecs and key layouts - and the C++ side (`src/protocol`): the
clear reference protocol, its stateful accumulator, the framed child process and the length-prefixed
encodings.

`dafny verify dfyconfig.toml` checks everything.

## How the system is represented

- A group element is its exponent to the group's generator: BN254 elements modulo a prime r,
  secp256k1 points modulo a prime ell, of which only r > 2^64 and 2^33 < ell < 2^256 is used; the C++
  profile has its own two primes. Zero is the identity and an integer outside the range is a point
  off the curve or outside the subgroup. A pairing multiplies exponents. Inverses and the absence of
  zero divisors are proved from primality (`Field.dfy`).
- SHA-256, hash-to-group and the handlers behind the wire are function-valued fields: every theorem
  holds for any such function whose results pass the range checks of the code. "The proof verifies"
  means that a witness satisfying the circuit relation `Circuit.Define` exists.
- Randomness, clocks, input/output outcomes, prover failures and crashes are parameters or events
  of a run, so that a theorem over all runs is a theorem over all of them.
- Objects whose methods update fields are classes (`Vault.WalletFile`, `Server.ServiceObject`,
  `Clear.ClearProtocol`, `ClearAccumulator.AccumulatorObject`, `Transport.NativeProcess`,
  `Cursors.Cursor`). Loops stay loops and are proved against functions, and the theorems are about
  those functions.

## Main results

- Accumulator: the in-place coefficient loop and the power sum give [prod(tau + a_i)]G for every
  member list and every order (`MemberPolynomial`, `CombinePowers`, `OrderIndependent`); exactly one
  witness verifies per member (`WitnessUnique`); an accepted witness for an outsider yields a q-SDH
  solution (`ExtractQsdh`); an old witness survives a join or an exit of m exactly when
  tau + m = 1 (`StaleAfterJoin`, `StaleAfterExit`).
- Binding: a verifier accepts exactly the statement it would write itself (`CheckMeans`), so a signature
  passes in another context or for another message if and only if issue, quota, message digest, ring digest
  and accumulator agree (`SignedVerifies`), and, short of a hash collision, if and only if message and
  ordered ring are the same (`SignedBindsContext`). The hashed strings determine all their parts and
  never coincide across purposes (`RingBinds`, `ChallengeBinds`, `DomainsSeparate`).
- Tracing: two statements of one registered user are legal, a replay or traced to that user, never
  invalid (`TraceClassifies`); every answer of Link and Trace on any two statements has its exact
  condition (`LinkExact`, `TraceExact`); and more than k statements under one quota k expose the user
  (`KTraceability`).
- Circuit: the relation is written with the circuit's own gadgets - packed bits, native Horner
  evaluation, range decompositions, emulated scalars - and proved equivalent, fact for fact, to the
  host's checks (`CircuitIsHost`); whatever `MakeStatement` returns satisfies it.
- Wallet runs: slots are never handed to the prover twice under any interleaving, failure or crash,
  burnt slots stay burnt and pinned quotas stay pinned (`VaultSafety`, `BurntSlot`), and exactly the
  quota can be used: n calls in a row go through if and only if n slots are left (`QuotaUsable`).
- Service runs: quotas, ring validity and revocations are kept, and a verification is answered at most
  once over all restarts (`ServiceQuota`, `ServiceRing`, `AcknowledgedSurvives`, `VerifyOnce`). In every
  reachable state each request succeeds exactly under a stated condition and each part of the state
  changes exactly as stated (`StepExact`, `MembershipExact`, `CountersExact`, `LedgerExact`, `FilesExact`).
  Over runs, the accepted envelopes are exactly those of requests that presented their own message,
  issue, quota and ring (`AcceptedProvenance`), the ring is exactly the joins that nothing undid
  (`RingHistory`), a revoked user is refused for ever (`RevokedRefused`), and the whole quota is usable
  (`QuotaIsUsable`). Joins, exits and revocations of the service change the accumulator as the
  snapshot operations do (`EnterExact`, `LeaveExact`, `RevokeExact`).
- Clear protocol: verification accepts exactly the signatures that some active account of the
  current ring makes for the message (`VerifyClearExact`), and two signatures of one user are classified
  exactly (`ClearClassification`).
- Transport: every normal return is the child's response to that very payload, in every session
  (`ResponsesMatch`), also for concurrent callers (`ConcurrentResponses`), and a transport failure is
  final (`FailureIsFinal`).
- Together: who signs through a vault or the service is never traced (`HonestWallet`,
  `HonestService`), and who reuses a counter is traced by the service to the right user
  (`ServiceTraces`).
- Bytes: signature, parameter, ring-label and public-signature codecs are exact inverses; the key, proof and
  contribution walkers accept exactly the encodings of well-formed values.

Where a stated goal does not hold of the code without a condition, the contract gives the exact
condition:

- In `src/protocol/accumulator.cpp` a member's exit fails when the 64-bit version counter is
  exhausted, and only then (`AccumulatorObject.Exit`, `ExitBlocked`). So `revoke_user`, documented as the exit of
  every active account, marks the user revoked and then completes exactly when the counter has room
  for all its exits (`ClearProtocol.RevokeUser`); nobody revoked is in the ring as long as the
  counter has room, which is part of `ClearProtocol.Valid`. Over every tuple and for every account that
  can join, joins and exits alone lead to the failing state (`ExitCanFail`, `RevocationCanStop`).
- A persisted ledger loads again exactly when it has no zero quota and no blank user
  (`LoadRestores`); every reachable ledger satisfies this (`ReachableLoads`).
- The trace request's registry is accepted exactly when handles exist and differ and no two users
  drew the same secret (`ServiceRegistry`); `SharedSecret` is a run in which it is rejected.
- The comment in `src/nativeproof/vault.go` about restoring a prior file holds: the vault theorems
  are about runs in which the file changes only by the vault's own steps and crashes.

## Model

| member | source | states |
|---|---|---|
| `Suites.Suite.NewAccount` | src/nativeproof/profile.go:247-259 | U = [d]u and Y = [x]U, both proper points, with d published |
| `Suites.Suite.NewAccountSucceeds` | src/nativeproof/profile.go:247-301 | Canonical nonzero secrets always give an account |
| `Suites.Suite.MemberExact` | src/nativeproof/profile.go:285-310 | A handle exists if and only if the points are proper, a published exponent is that of U, and the hash is not zero modulo r |
| `Accumulator.ValidateParams` | src/nativeproof/profile.go:125-151 | Accepts exactly the powers of one nonzero trapdoor |
| `Accumulator.Setup` | src/nativeproof/profile.go:98-117 | Succeeds exactly for capacities 1 to 65536 and publishes capacity+1 powers of the trapdoor |
| `Accumulator.ParamsExact` | src/nativeproof/profile.go:98-151 | Accepted parameters are exactly those that Setup publishes for some nonzero trapdoor and capacity |
| `Accumulator.MultiplyByMember` | src/nativeproof/profile.go:368-377 | The in-place update multiplies the coefficient list by X + a |
| `Accumulator.MemberPolynomial` | src/nativeproof/profile.go:364-380 | The coefficients are reduced, monic, and evaluate to prod(x + a_i) at every x |
| `Accumulator.CombinePowers` | src/nativeproof/profile.go:382-398 | The power sum is [prod(tau + a_i)]G; it fails exactly on overflow of the powers or the identity |
| `Accumulator.MembersOf` | src/nativeproof/profile.go:312-331 | Succeeds exactly when all handles exist and differ, and returns them in order |
| `Accumulator.RingExact` | src/nativeproof/profile.go:312-331 | A ring has 1 to 2^32-1 accounts, each with a handle, and all different |
| `Accumulator.Accumulate` | src/nativeproof/profile.go:400-413 | Equals the accumulator function of the ring, errors included |
| `Accumulator.ValueOfRing` | src/nativeproof/profile.go:400-413 | A ring with an accumulator has value [prod(tau + a_i)]G over distinct handles |
| `Accumulator.AccumulatorExact` | src/nativeproof/profile.go:312-413 | A ring has an accumulator if and only if the parameters are good, it fits the powers, its accounts are valid with different handles, and none cancels the trapdoor |
| `Accumulator.MembershipWitness` | src/nativeproof/profile.go:415-432 | Equals the accumulator of the other members, errors included |
| `Accumulator.VerifyMembership` | src/nativeproof/profile.go:434-448 | The pairing check is w(a + tau) = v with canonical inputs |
| `Accumulator.WitnessUnique` | src/nativeproof/profile.go:434-448 | Exactly one w verifies for a value and a handle, and only when tau + a is not zero |
| `Accumulator.WitnessComplete` | src/nativeproof/profile.go:415-448 | Every index of an accumulated ring has a witness, and it verifies |
| `Accumulator.WitnessExact` | src/nativeproof/profile.go:415-432 | An index has a witness if and only if the ring is valid, fits the powers, and no other account cancels the trapdoor |
| `Accumulator.OrderIndependent` | src/nativeproof/profile.go:364-413 | Permuted rings have the same accumulator, errors included |
| `Accumulator.PermutedRing` | src/nativeproof/profile.go:312-331 | Handles exist and differ in every order of a ring |
| `Accumulator.SyntheticDivision` | src/nativeproof/security_test.go:44-53 | The loop computes quotient and remainder of division by X + b |
| `Accumulator.RemainderNonzero` | src/nativeproof/security_test.go:42-53 | The remainder is F(-b), and nonzero for b outside the set |
| `Accumulator.ExtractionIdentity` | src/nativeproof/security_test.go:42-66 | (W - [Q(tau)]G)/F(-b) is [1/(tau + b)]G |
| `Accumulator.ExtractQsdh` | src/nativeproof/security_test.go:42-66 | From an accepted witness of an outsider, public powers alone give [1/(tau + b)]G |
| `Polynomial.ProductCoefficientsEval` | src/nativeproof/profile.go:364-380 | The coefficient list evaluates to the product of the factors, modulo q |
| `Polynomial.ProductCoefficientsShape` | src/nativeproof/profile.go:364-380 | One more coefficient than members, all reduced, leading coefficient one |
| `Polynomial.ProdPermute` | src/nativeproof/profile.go:364-398 | The product does not depend on the order of the members |
| `Polynomial.DivideEval` | src/nativeproof/security_test.go:44-53 | F(x) = (x + b)Q(x) + c for the computed quotient and remainder |
| `Snapshots.Exit` | src/nativeproof/profile.go:574-595 | Equals the removal function, errors included |
| `Snapshots.RemovalClosed` | src/nativeproof/profile.go:560-595 | Every sub-ring of a valid snapshot is valid, down to the empty ring |
| `Snapshots.ExitIsRemoval` | src/nativeproof/profile.go:574-595 | Exit of a member is the snapshot of the remaining accounts |
| `Snapshots.ExitSucceeds` | src/nativeproof/profile.go:574-595 | Every member can exit; exactly its account and its factor leave |
| `Snapshots.ExitExact` | src/nativeproof/profile.go:574-595 | Exactly the members of a valid snapshot can exit |
| `Snapshots.JoinValue` | src/nativeproof/profile.go:571-573 | Join multiplies the value by tau + a |
| `Snapshots.JoinExact` | src/nativeproof/profile.go:571-573 | Join succeeds if and only if there is room and the account is valid with a new handle that does not cancel the trapdoor |
| `Snapshots.StaleAfterJoin` | src/nativeproof/profile.go:434-448 | After a join of m an earlier witness verifies if and only if tau + m = 1 |
| `Snapshots.StaleAfterExit` | src/nativeproof/profile.go:434-448 | After an exit of m an earlier witness, the leaver's included, verifies if and only if tau + m = 1 |
| `Snapshots.ExitUndoesJoin` | src/nativeproof/profile.go:571-595 | Exit right after join restores the snapshot |
| `Gadgets.BytesBits` | src/nativeproof/circuit.go:48-54 | The little-endian bits denote the big-endian value of the bytes |
| `Gadgets.BytesBitsLoop` | src/nativeproof/circuit.go:48-54 | The loop computes those bits |
| `Gadgets.IntegerBytesLoop` | src/nativeproof/circuit.go:55-69 | The loop pads and packs the bits, last byte first |
| `Gadgets.PackIsEncode` | src/nativeproof/circuit.go:62-68 | Packed bits are the fixed-width big-endian encoding of their integer |
| `Gadgets.IntegerBytesIsEncode` | src/nativeproof/circuit.go:55-69 | So are padded and packed bits, whatever their number |
| `Gadgets.FieldBytesIsEncode` | src/nativeproof/circuit.go:70-73 | The packed canonical bits of a field element are its 32 bytes |
| `Gadgets.NativeValue` | src/nativeproof/circuit.go:74-81 | The loop is Horner evaluation in the field |
| `Gadgets.HornerIsValue` | src/nativeproof/circuit.go:74-81 | Horner evaluation is the integer modulo r, whatever its size |
| `Gadgets.FitsMeaning` | src/nativeproof/circuit.go:144-147 | An n-bit decomposition exists exactly for residues below 2^n |
| `Gadgets.CounterRange` | src/nativeproof/circuit.go:144-147 | k - cnt - 1 has a 32-bit decomposition in the field if and only if cnt < k |
| `Circuit.RingDigest` | src/nativeproof/profile.go:333-346 | Succeeds exactly on rings with existing, distinct handles and hashes the ring preimage |
| `Circuit.HashesExact` | src/nativeproof/profile.go:155-206 | Seeds and challenge are the reduced hashes, and fail exactly on noncanonical inputs or a zero |
| `Circuit.NymLoop` | src/nativeproof/profile.go:487-498 | The loop over the three bases computes the pseudonym |
| `Circuit.RangesAgree` | src/nativeproof/circuit.go:144-148 | The decompositions of counter, quota, k - cnt - 1 and the 64-bit timestamp hold if and only if cnt < k < 2^32 and the timestamp is a 64-bit word |
| `Circuit.SeedsAgree` | src/nativeproof/circuit.go:149-162 | The seeds from the packed bits of x are the host's; the host fails exactly when one is zero |
| `Circuit.NymAgrees` | src/nativeproof/circuit.go:163-178 | The exponents evaluated natively from packed bytes give the host's pseudonym |
| `Circuit.ChallengeAgrees` | src/nativeproof/circuit.go:198-211 | The packed transcript is the host's, and so is its challenge, which fails exactly when it is zero |
| `Circuit.EquationsAgree` | src/nativeproof/circuit.go:212-218 | The emulated equations hold if and only if S and T are the host's |
| `Circuit.TagsAgree` | src/nativeproof/circuit.go:149-218 | Seeds, pseudonym, challenge and tags of the circuit hold if and only if the host's do |
| `Circuit.MemberAgrees` | src/nativeproof/circuit.go:183-192 | The handle from packed coordinates, evaluated natively, is the host's; the host fails exactly when it is zero |
| `Circuit.MembershipAgrees` | src/nativeproof/circuit.go:179-197 | The membership constraints hold if and only if NewAccount derives the account and VerifyMembership accepts its handle |
| `Circuit.MembershipRegrouped` | src/nativeproof/circuit.go:193-197 | e(aW - V, H)e(W, HTau) = 1 if and only if w(a + tau) = v |
| `Circuit.CircuitIsHost` | src/nativeproof/circuit.go:92-220 | The whole relation holds if and only if the host's ranges, account, membership, pseudonym, challenge, S and T do |
| `Circuit.DefineMeans` | src/nativeproof/circuit.go:92-220 | A satisfying assignment has the host's ranges and tags, whatever the parameters |
| `Circuit.HostMembership` | src/nativeproof/profile.go:457-474 | The host's account and witness are accepted by VerifyMembership |
| `Circuit.HostTags` | src/nativeproof/profile.go:508-529 | The host's S and T satisfy the tag equations |
| `Circuit.HostSatisfiesCircuit` | src/nativeproof/profile.go:450-531 | The host's statement and witness satisfy the whole relation |
| `Circuit.MakeStatement` | src/nativeproof/profile.go:450-531 | Succeeds exactly when the inputs are signable, and then the statement has the given issue, message, timestamp, quota and ring and the pair satisfies the circuit relation |
| `Tracing.CheckMeans` | src/nativeproof/backend.go:294-325 | The check passes if and only if the points are proper and the statement is the one the verifier would write itself for its ring, issue, quota and message |
| `Tracing.SignedVerifies` | src/nativeproof/backend.go:294-325 | A statement made for one context and message passes the check of another if and only if issue, quota, message digest, ring digest and accumulator agree; it verifies there if and only if they agree, when the parameters are the same or give the signer a witness |
| `Tracing.LinkExact` | src/nativeproof/protocol.go:168-176 | Link answers exactly when both signatures verify, and yes exactly when the issues agree and the two secrets have one pseudonym for it |
| `Tracing.TraceExact` | src/nativeproof/protocol.go:177-210 | Trace is legal, a replay, or names a user and key exactly under the stated relations of serials, challenges, tags and registry, for any two statements |
| `Tracing.ExtractMeans` | src/nativeproof/protocol.go:192-204 | The extracted key solves the equation of the two tags |
| `Tracing.SerialInjective` | src/nativeproof/profile.go:508-531 | Serials of one seed are equal if and only if the counters are |
| `Tracing.Elimination` | src/nativeproof/protocol.go:192-204 | Two tags of one counter and different challenges give [x]u |
| `Tracing.SamePseudonym` | src/nativeproof/protocol.go:168-176 | One secret has one pseudonym per issue, whatever ring and account |
| `Tracing.PairAlgebra` | src/nativeproof/protocol.go:177-204 | Equal serials mean equal counters; then tags agree with equal challenges and otherwise reveal the key |
| `Tracing.ExtractSecret` | src/nativeproof/protocol.go:192-204 | The extraction of Trace returns the secret |
| `Tracing.Classification` | src/nativeproof/protocol.go:177-210 | For one registered user: legal iff counters differ, replay iff the challenges agree too, else traced to them |
| `Tracing.TraceClassifies` | src/nativeproof/protocol.go:168-210 | The same for whole Trace calls on verified signatures, and Link answers yes |
| `Tracing.KTraceability` | src/nativeproof/protocol.go:177-210 | Among more than k verified signatures of one secret, issue and quota, some pair traces the registered user |
| `Binding.SeedBinds` | src/nativeproof/profile.go:185-206 | The seed preimage determines secret, issue and branch |
| `Binding.MemberBinds` | src/nativeproof/profile.go:303-310 | The member preimage determines both points of the account |
| `Binding.RingBinds` | src/nativeproof/profile.go:333-346 | The ring preimage determines the points of the ordered ring |
| `Binding.RingLayout` | src/nativeproof/profile.go:333-346 | U and Y of every account at their fixed offset of the ring preimage |
| `Binding.ChallengeBinds` | src/nativeproof/profile.go:348-362 | The challenge preimage determines issue, ring digest, message digest, pseudonym, timestamp and quota |
| `Binding.DomainsSeparate` | src/nativeproof/profile.go:185-362 | No seed, member, ring and challenge preimage coincide |
| `Binding.SameAccumulator` | src/nativeproof/profile.go:303-413 | Rings with the same points have the same accumulator |
| `Binding.SignedBindsContext` | src/nativeproof/backend.go:294-325 | Where the hash does not collide on the two messages and rings, a signature verifies elsewhere if and only if issue, quota, message and the ordered ring are the same |
| `Registries.NewRegistry` | src/nativeproof/protocol.go:68-107 | Accepts exactly the lists where ids and trace keys are in bijection and no account repeats |
| `Registries.Resolve` | src/nativeproof/protocol.go:108-120 | Equals the first-match function, errors included |
| `Registries.KeyOfAccount` | src/nativeproof/protocol.go:108-120 | The trace key of an account of secret x is [x]u |
| `Registries.ResolveMeaning` | src/nativeproof/protocol.go:108-120 | Resolves to a user if and only if that user has an entry with the key |
| `Registries.RegistryOrder` | src/nativeproof/protocol.go:68-120 | Acceptance and resolution do not depend on the order of the entries |
| `Registries.CollectUser` | src/nativeproof/protocol.go:125-139 | Collects exactly the handles of the user's entries |
| `Registries.KeepExcept` | src/nativeproof/protocol.go:140-149 | Keeps exactly the accounts outside the set, in order |
| `Registries.RevokeUser` | src/nativeproof/protocol.go:124-151 | Succeeds exactly for registered users and keeps exactly the other accounts in order |
| `Registries.ExitAllKeeps` | src/nativeproof/protocol.go:124-151 | Exiting members one by one succeeds and equals keeping the others |
| `Registries.RevocationIsRepeatedExit` | src/nativeproof/protocol.go:124-151 | Revocation equals repeated exit, in whichever order |
| `Registries.RevokingEveryone` | src/nativeproof/protocol.go:124-151 | Revoking the only owner leaves the empty ring with V = G |
| `Vault.ReserveSafe` | src/nativeproof/vault.go:246-262 | A reservation keeps the wallet well-formed and lies above every earlier call; the counter cannot overflow |
| `Vault.ReserveExact` | src/nativeproof/vault.go:246-258 | A reservation succeeds if and only if the issue has this quota or is new with room, and a slot is left; it hands out the next slot and changes nothing else |
| `Vault.StepKeeps` | src/nativeproof/vault.go:54-266 | Every step, failure and crash keeps the vault invariant |
| `Vault.RunKeeps` | src/nativeproof/vault.go:54-266 | So does every run |
| `Vault.VaultSafety` | src/nativeproof/vault.go:54-266 | Over every run: one secret, one quota per issue, strictly increasing counters below it, one lock holder, a readable wallet; and what is durable at any point binds every later call |
| `Vault.DurableSurvives` | src/nativeproof/vault.go:125-176 | Over every run the durable wallet only grows, and every later call has its secret, its quotas and slots it has not handed out |
| `Vault.BurntSlot` | src/nativeproof/vault.go:259-266 | A slot reserved and synced but never proved is handed to no later call, and its quota stays pinned |
| `Vault.NeverReset` | src/nativeproof/vault.go:177-201 | Over every run the wallet in place only grows without crashes, and always extends what was durable |
| `Vault.QuotaBound` | src/nativeproof/vault.go:236-266 | No run hands the prover more than k slots of an issue with quota k |
| `Vault.QuotaUsable` | src/nativeproof/vault.go:203-266 | From any reachable state n calls in a row go through if and only if the quota has n slots left; the prover gets exactly the next n slots in order |
| `Vault.WalletFile.Create` | src/nativeproof/vault.go:177-201 | Creates exactly when there is no wallet; an existing one is untouched |
| `Vault.WalletFile.ReserveAndProve` | src/nativeproof/vault.go:236-266 | Calls the prover if and only if a slot is left and nothing fails, once, with the next slot, made durable before; every failure after the rename burns the slot |
| `Vault.WalletFile.CommitAndProve` | src/nativeproof/vault.go:125-176 | Replace, sync, prove: which file and which log each failure leaves |
| `Text.SortStrings` | src/nativeproof/service.go:197-210 | Sorts a set of ids: strictly increasing, exactly its elements |
| `Text.ListsUnique` | src/nativeproof/service.go:197-210 | The sorted listing of a set is unique |
| `Text.HexRoundTrip` | src/nativeproof/service.go:221-229 | Decoding a hex text gives the bytes back |
| `Text.HexExact` | src/nativeproof/service.go:221-229 | Exactly even-length hex texts decode, and exactly the lower-case ones are canonical |
| `Ledgers.FileExact` | src/nativeproof/service.go:91-138 | loadState accepts exactly version 1 with 64 lower-case hex digits per issue, nonzero quotas, no blank user and 64 hex digits per digest |
| `Ledgers.LoadState` | src/nativeproof/service.go:91-138 | Accepts exactly well-formed files and returns their contents |
| `Ledgers.PersistState` | src/nativeproof/service.go:140-196 | Writes the sorted hex encoding of the ledger |
| `Ledgers.LoadRestores` | src/nativeproof/service.go:91-196 | A written ledger loads if and only if it has no zero quota and no blank user, and comes back exactly |
| `Ledgers.EncodingCanonical` | src/nativeproof/service.go:140-196 | The file is a function of the ledger |
| `Service.StepKeeps` | src/nativeproof/service.go:336-570 | Every request and restart keeps the service invariant |
| `Service.RunKeeps` | src/nativeproof/service.go:336-570 | So does every run |
| `Service.InitialOk` | src/nativeproof/service.go:61-90 | A new service satisfies the invariant |
| `Service.SetUpKeeps` | src/nativeproof/service.go:341-360 | Setting up keeps the invariant |
| `Service.KeygenKeeps` | src/nativeproof/service.go:365-400 | Key generation keeps the invariant, on every write outcome |
| `Service.EnterKeeps` | src/nativeproof/service.go:401-435 | A join checked in append order keeps the id-sorted ring valid |
| `Service.LeaveKeeps` | src/nativeproof/service.go:401-435 | An exit keeps the invariant |
| `Service.RevokeKeeps` | src/nativeproof/service.go:436-449 | Revocation, which never calls Exit, keeps the ring valid |
| `Service.SignKeeps` | src/nativeproof/service.go:451-495 | Signing keeps the invariant on every prover and write outcome |
| `Service.VerifyKeeps` | src/nativeproof/service.go:504-518 | Verification keeps the invariant |
| `Service.RestartKeeps` | src/nativeproof/service.go:69-138 | A persistent service always restarts, from either version of the file, and keeps the invariant |
| `Service.ServiceQuota` | src/nativeproof/service.go:451-495 | In one lifetime all signatures of a user and issue use one quota, distinct counters below it, and at most quota many |
| `Service.ServiceRing` | src/nativeproof/service.go:364-450 | In every reachable state the sorted ring is accepted, active ids are registered, nobody revoked is active, accounts open under their signer |
| `Service.AcknowledgedSurvives` | src/nativeproof/service.go:91-196 | Acknowledged revocations, quotas and envelopes are in force after any crashes and restarts, and both file versions load |
| `Service.ReachableLoads` | src/nativeproof/service.go:91-196 | In every reachable state loadState restores exactly what persistState wrote |
| `Service.VerifyOnce` | src/nativeproof/service.go:504-518 | Verification answers ok at most once per envelope over all restarts |
| `Service.QuotaAcrossRestarts` | src/nativeproof/service.go:554-570 | An issue keeps its acknowledged quota over restarts |
| `Service.SharedSecret` | src/nativeproof/service.go:536-546 | A run in which two users draw one secret and the registry is rejected |
| `Service.ServiceRegistry` | src/nativeproof/service.go:536-546 | The trace registry is accepted if and only if handles exist and differ and no two users share a secret |
| `Requests.RingDrop` | src/nativeproof/service.go:197-210 | Without some ids the sorted ring is the old ring without exactly their handles, in order |
| `Requests.KeygenExact` | src/nativeproof/service.go:365-400 | Key generation is granted if and only if names are fresh, the user is not revoked and the scalars are canonical; a known user's account gets their secret |
| `Requests.EnterExact` | src/nativeproof/service.go:401-435 | In every reachable state a join is granted if and only if MayJoin holds; the accumulator is multiplied by the new factor |
| `Requests.LeaveExact` | src/nativeproof/service.go:401-435 | In every reachable state exactly the active accounts can leave, and the new ring is Exit of the old one |
| `Requests.RevokeExact` | src/nativeproof/service.go:436-449 | Revocation deactivates exactly the user's accounts: the new ring is their exits one by one, in any order |
| `Requests.SignExact` | src/nativeproof/service.go:451-495 | In every reachable state only quota, counter and degenerate hashes stop an active account from signing |
| `Requests.VerifyExact` | src/nativeproof/service.go:504-518 | Verification is granted if and only if quota, fresh envelope, proof and the verifier's own statement agree |
| `Requests.RestartExact` | src/nativeproof/service.go:69-138 | A persistent service restarts from every reachable state |
| `Requests.StepExact` | src/nativeproof/service.go:336-570 | A request succeeds if and only if it is granted and completes; one that is not granted changes nothing |
| `Requests.StepFrame` | src/nativeproof/service.go:336-570 | Which parts of the state each request can touch |
| `Requests.MembershipExact` | src/nativeproof/service.go:401-449 | An account is active after a request if and only if it just joined, or was active and neither left nor lost its user or process |
| `Requests.AccountsExact` | src/nativeproof/service.go:365-400 | Accounts never change; the only new one is that of a completed key generation |
| `Requests.CountersExact` | src/nativeproof/service.go:451-495 | Secrets never change, and a counter grows by one exactly with each signature proved for it |
| `Requests.LedgerExact` | src/nativeproof/service.go:436-518 | What each request adds to revocations, quotas and seen envelopes |
| `Requests.FilesExact` | src/nativeproof/service.go:140-196 | What both versions of the ledger file hold after every request |
| `Requests.HistoryExact` | src/nativeproof/service.go:336-518 | Released signatures, accepted envelopes and acknowledged facts are exactly those of the completed requests |
| `Requests.AcceptedProvenance` | src/nativeproof/service.go:504-518 | Over every run the accepted envelopes are exactly those of requests whose statement was for their own message, issue, quota and the ring of that moment |
| `Requests.RingHistory` | src/nativeproof/service.go:401-449 | Over every run an account is in the ring if and only if it joined and no exit, revocation or restart came after |
| `Requests.RevokedRefused` | src/nativeproof/service.go:365-449 | After an acknowledged revocation the user never registers, joins or signs again, across restarts |
| `Requests.QuotaIsUsable` | src/nativeproof/service.go:451-495 | Requests in a row are signed with consecutive counters until the quota is used up, and not one longer |
| `Requests.SignedGranted` | src/nativeproof/service.go:504-518 | A signature is granted verification in a reachable state if and only if quota, fresh envelope, ring and message bind the same values |
| `Requests.SignThenVerify` | src/nativeproof/service.go:451-518 | Right after signing, the signature verifies for its message and for no text with another digest |
| `Server.ServiceObject.constructor` | src/nativeproof/service.go:80-82 | A process over a ledger and the file it came from |
| `Server.ServiceObject.Volatile` | src/nativeproof/service.go:61-63 | A service without a file is initial |
| `Server.ServiceObject.Open` | src/nativeproof/service.go:69-138 | Opens exactly when the path is not blank and the file, if any, loads, and holds its contents |
| `Server.ServiceObject.Restart` | src/nativeproof/service.go:69-138 | A valid service always restarts from its own file, as the restart transition says |
| `Server.ServiceObject.Write` | src/nativeproof/service.go:140-196 | Replaces the file by the document of the ledger, according to the outcome |
| `Server.ServiceObject.RingNow` | src/nativeproof/service.go:197-210 | The sorted active ids and their accounts |
| `Server.ServiceObject.SnapshotNow` | src/nativeproof/service.go:406-410 | The snapshot of the current ring |
| `Server.ServiceObject.SetUpRequest` | src/nativeproof/service.go:341-360 | Equals the setup transition |
| `Server.ServiceObject.KeygenRequest` | src/nativeproof/service.go:365-400 | Equals the keygen transition, including the rollback of a failed write; ok exactly under MayRegister and a completed write |
| `Server.ServiceObject.Store` | src/nativeproof/service.go:387-400 | Adds signer and account; a failed write takes the account back but not the signer |
| `Server.ServiceObject.JoinRequest` | src/nativeproof/service.go:401-435 | Equals the join transition; ok exactly under MayJoin and a completed write |
| `Server.ServiceObject.ExitRequest` | src/nativeproof/service.go:401-435 | Equals the exit transition; ok exactly for an active account and a completed write |
| `Server.ServiceObject.RevokeRequest` | src/nativeproof/service.go:436-449 | Marks the user revoked and deactivates exactly that user's accounts; nothing else changes; ok exactly for a known user and a completed write |
| `Server.ServiceObject.PrepareSign` | src/nativeproof/service.go:459-481 | Ready exactly when the request can be signed |
| `Server.ServiceObject.SignRequest` | src/nativeproof/service.go:451-495 | Equals the signing transition; ok exactly under MaySign, a proof and a completed write |
| `Server.ServiceObject.PinAndRelease` | src/nativeproof/service.go:489-494 | Pins the quota, writes, and releases only when written |
| `Server.ServiceObject.ContextNow` | src/nativeproof/service.go:462-466 | The context of the current ring exists exactly when the ring accumulates |
| `Server.ServiceObject.CheckNow` | src/nativeproof/backend.go:294-325 | Accepts exactly the statement a verifier would write itself for the current ring, issue, quota and message |
| `Server.ServiceObject.VerifyRequest` | src/nativeproof/service.go:504-518 | Equals the verification transition; ok exactly under MayVerify and a completed write |
| `Server.ServiceObject.Consume` | src/nativeproof/service.go:512-517 | Records the envelope and answers ok only when written |
| `Server.FindId` | src/nativeproof/service.go:468-476 | Finds the position of an id in the sorted ring |
| `ClearAccumulator.CheckSdh` | src/protocol/accumulator.cpp:55-81 | The constructor accepts exactly the tuples of one nonzero trapdoor over a proper generator |
| `ClearAccumulator.SdhExact` | src/protocol/accumulator.cpp:55-81 | An accepted tuple is exactly the tuple of some nonzero trapdoor over proper bases |
| `ClearAccumulator.AccumulateSet` | src/protocol/accumulator.cpp:144-173 | Gives [prod(tau + a_i)]g; fails exactly on too many members or the identity |
| `ClearAccumulator.PairStep` | src/protocol/accumulator.cpp:75-80 | The pairing check of two neighbours is multiplication by tau |
| `ClearAccumulator.AccumulatorObject.constructor` | src/protocol/accumulator.cpp:113-117 | The empty set has the generator as value |
| `ClearAccumulator.AccumulatorObject.Update` | src/protocol/accumulator.cpp:179-203 | Equals the update function: duplicates, overflow and an exhausted version are rejected without change |
| `ClearAccumulator.AccumulatorObject.Join` | src/protocol/accumulator.cpp:205-210 | Succeeds exactly for a new member that accumulates, with the version not exhausted |
| `ClearAccumulator.AccumulatorObject.Exit` | src/protocol/accumulator.cpp:212-224 | Succeeds exactly for a member, with the version not exhausted |
| `ClearAccumulator.AccumulatorObject.WitnessFor` | src/protocol/accumulator.cpp:226-245 | Exists exactly for members, and is accepted |
| `ClearAccumulator.AccumulatorObject.VerifyRaw` | src/protocol/accumulator.cpp:246-258 | The pairing check is w(a + tau) = value |
| `ClearAccumulator.AccumulatorObject.Verify` | src/protocol/accumulator.cpp:260-271 | Owner, version, set digest and handle must match, and the pairing |
| `ClearAccumulator.DropAccumulable` | src/protocol/accumulator.cpp:212-240 | Removing a member leaves an accumulable set and divides its factor out |
| `ClearAccumulator.WitnessAccepted` | src/protocol/accumulator.cpp:226-271 | A member's witness is accepted at its version |
| `ClearAccumulator.OpensOnce` | src/protocol/accumulator.cpp:226-258 | Exactly one element opens the accumulator at a member |
| `ClearAccumulator.AcceptsExact` | src/protocol/accumulator.cpp:260-271 | Exactly one witness record is accepted for a member |
| `ClearAccumulator.UpdateExact` | src/protocol/accumulator.cpp:179-203 | update accepts a list if and only if it has no duplicates, fits, cancels nothing and a version is left, and the state is that of the list |
| `ClearAccumulator.ValueForAnyOrder` | src/protocol/accumulator.cpp:131-142 | The stored value is that of the members in any order |
| `ClearAccumulator.ExitBlocked` | src/protocol/accumulator.cpp:179-224 | A member's exit is rejected if and only if the version counter is exhausted |
| `ClearAccumulator.ExitCanFail` | src/protocol/accumulator.cpp:179-224 | For every tuple and handle, joins and exits alone lead to a state that holds the handle and cannot let it go |
| `ClearAccumulator.VersionsIncrease` | src/protocol/accumulator.cpp:179-190 | Versions strictly increase along every chain of updates |
| `ClearAccumulator.WitnessExpires` | src/protocol/accumulator.cpp:260-271 | A witness is rejected at every later version |
| `Clear.StoredValue` | src/protocol/clear.cpp:226-236 | In a consistent state the stored value is value_for of the id-sorted handles, which are distinct |
| `Clear.ActiveIsMember` | src/protocol/clear.cpp:198-236 | An active account's handle is a member |
| `Clear.ActivateHandles` | src/protocol/clear.cpp:198-206 | Activating an account adds exactly its handle |
| `Clear.DeactivateHandles` | src/protocol/clear.cpp:208-213 | Deactivating removes exactly its handle |
| `Clear.JoinConsistent` | src/protocol/clear.cpp:198-206 | A join keeps accounts and accumulator in agreement |
| `Clear.ExitConsistent` | src/protocol/clear.cpp:208-213 | So does an exit |
| `Clear.RevocationCanStop` | src/protocol/clear.cpp:215-224 | For all rules, joins and exits lead to a valid state in which a revocation leaves an account active |
| `Clear.ClearProtocol.constructor` | src/protocol/clear.cpp:130-131 | A new protocol is empty and valid |
| `Clear.ClearProtocol.CreateUser` | src/protocol/clear.cpp:157-181 | Succeeds exactly for a nonempty, unused, unrevoked id |
| `Clear.ClearProtocol.CreateAccount` | src/protocol/clear.cpp:183-196 | Succeeds exactly for a nonempty, unused id of a known user, revoked or not |
| `Clear.ClearProtocol.Join` | src/protocol/clear.cpp:198-206 | Succeeds exactly for a known, inactive account of an unrevoked user that the accumulator takes |
| `Clear.ClearProtocol.Exit` | src/protocol/clear.cpp:208-213 | Succeeds exactly for an active account, with the version not exhausted |
| `Clear.ClearProtocol.RevokeUser` | src/protocol/clear.cpp:215-224 | Completes exactly when the version counter has room for all the exits; others keep their accounts |
| `Clear.ClearProtocol.HandlesNow` | src/protocol/clear.cpp:226-236 | The handles of the active accounts, sorted by id |
| `Clear.ClearProtocol.LabelNow` | src/protocol/clear.cpp:238-249 | The public keys of the active accounts, sorted by id |
| `Clear.ClearProtocol.SignClear` | src/protocol/clear.cpp:262-303 | Succeeds exactly when the account may sign, and uses the next counter once |
| `Clear.ClearProtocol.Verify` | src/protocol/clear.cpp:305-362 | Accepts exactly the current ring with a signature of one of its active accounts for exactly this message |
| `Clear.ClearProtocol.VerifyChecks` | src/protocol/clear.cpp:305-362 | The checks in the order of the source |
| `Clear.ClearProtocol.Trace` | src/protocol/clear.cpp:371-404 | Invalid unless both verify and link; otherwise one of the permitted verdicts |
| `Clear.Find` | src/protocol/clear.cpp:322-326 | The first account with the handle |
| `Clear.SignedClearVerifies` | src/protocol/clear.cpp:262-362 | A signature verifies, while the accounts are unchanged, if and only if the ring is the current one and the challenge hash of the message is that of the signed one |
| `Clear.VerifyClearExact` | src/protocol/clear.cpp:305-362 | verify_clear accepts if and only if every field is that of an active account's own signature for the counter and message |
| `Clear.ClearBindsMessage` | src/protocol/clear.cpp:305-362 | A verifying signature verifies for another ring and message if and only if the ring is the same and the challenge hashes agree |
| `Clear.MaySignExact` | src/protocol/clear.cpp:262-303 | Signing is allowed if and only if the counter fits a long and the signature it makes is one that verifies |
| `Clear.VerdictExists` | src/protocol/clear.cpp:371-404 | The scan of the accounts always comes to one of the permitted verdicts |
| `Clear.ClearTags` | src/protocol/clear.cpp:285-303 | One user: equal passes iff equal counters; equal counters and different challenges reveal the secret |
| `Clear.MatchMeansSecret` | src/protocol/clear.cpp:395-402 | An active account opens under a recovered key exactly when its user has that secret |
| `Clear.ClearClassification` | src/protocol/clear.cpp:371-404 | Two verified signatures of one user: legal iff counters differ, replay iff challenge and timestamp agree too, traced iff the group challenges differ, to a user with that very secret |
| `Transport.Serve` | src/nativeproof/cmd/lktrs-native/main.go:63-88 | The loop writes exactly the frames of the responses, up to the first unreadable or oversized one |
| `Transport.ServedExact` | src/nativeproof/cmd/lktrs-native/main.go:63-88 | For every input the child answers exactly the longest list of servable frames at its start, each after the ones before |
| `Transport.ServedMonotone` | src/nativeproof/cmd/lktrs-native/main.go:63-88 | More input never takes back output |
| `Transport.ChildMonotone` | src/nativeproof/cmd/lktrs-native/main.go:63-88 | The serving child is a stream the host can rely on |
| `Transport.ServedFrame` | src/nativeproof/cmd/lktrs-native/main.go:63-88 | One complete frame yields one response frame |
| `Transport.ServedFrames` | src/nativeproof/cmd/lktrs-native/main.go:63-88 | After complete frames the child is in step with its input |
| `Transport.NativeProcess.constructor` | src/protocol/native_process.cpp:227-260 | A new connection is live and empty |
| `Transport.NativeProcess.WriteAll` | src/protocol/native_process.cpp:166-181 | Writes a prefix, the whole exactly on success, and succeeds when every call makes progress |
| `Transport.NativeProcess.ReadAll` | src/protocol/native_process.cpp:183-195 | Fills the buffer with the next bytes of the stream on success, and succeeds when they come |
| `Transport.NativeProcess.WriteFrame` | src/protocol/native_process.cpp:281-286 | Writes header and payload |
| `Transport.NativeProcess.ReadFrame` | src/protocol/native_process.cpp:287-296 | Reads exactly one frame within the limit |
| `Transport.NativeProcess.Request` | src/protocol/native_process.cpp:264-301 | An answer moves one frame each way, a refusal changes nothing, any other failure stops the child; a cooperative schedule succeeds |
| `Transport.NativeProcess.Stop` | src/protocol/native_process.cpp:202-219 | The child is gone |
| `Transport.RequestInStep` | src/protocol/native_process.cpp:264-301 | In step, a normal return is the child's response to its own payload, and the streams are in step again |
| `Transport.SessionInStep` | src/protocol/native_process.cpp:264-301 | Both streams are at a frame boundary before every call of every session |
| `Transport.ResponsesMatch` | src/protocol/native_process.cpp:264-301 | Every normal return of a session is the response to that payload after exactly the earlier answered ones |
| `Transport.FailureIsFinal` | src/protocol/native_process.cpp:297-300 | After a transport failure no later call succeeds |
| `Transport.RefusalHarmless` | src/protocol/native_process.cpp:270-278 | A live connection survives a call without an answer if and only if the payload exceeds 16 MiB or the timeout is bad, and is then unchanged; a dead one never answers |
| `Transport.AnswerWaits` | src/protocol/native_process.cpp:264-301 | In step, the answer to a payload within the limits is waiting, so a call whose polls make progress returns it |
| `Callers.StepKeeps` | src/protocol/native_process.cpp:264-301 | Arrivals, lock, work and return of any callers keep the session and everyone's own requests |
| `Callers.RunKeeps` | src/protocol/native_process.cpp:264-301 | So does every interleaving |
| `Callers.ConcurrentResponses` | src/protocol/native_process.cpp:264-301 | For concurrent callers every normal return is the response to the payload its caller asked |
| `Callers.OwnRequests` | src/protocol/native_process.cpp:264-301 | Every caller gets back its own requests, each once and in order |
| `Callers.OneAtATime` | src/protocol/native_process.cpp:264-301 | Over every run, while a caller has the mutex nobody else enters, touches the streams or returns |
| `Callers.FailureReachesAll` | src/protocol/native_process.cpp:297-300 | After a transport failure of one caller no caller succeeds |
| `Honesty.DifferentCounters` | src/nativeproof/protocol.go:177-210 | Signatures of one secret with different counters are legal, or refused across issues |
| `Honesty.HonestWallet` | src/nativeproof/protocol.go:177-210 | Signatures for two prover calls of one vault run are never traced |
| `Honesty.ServiceTraces` | src/nativeproof/service.go:529-546 | In every reachable state with an accepted registry the trace request classifies two signatures of a registered secret exactly, and names the user of that account |
| `Honesty.HonestService` | src/nativeproof/protocol.go:177-210 | Nor are two that one lifetime of the service released for a user |
| `Wire.PointOfBytes` | src/nativeproof/wire.go:48-81 | Reading an encoded point gives it back |
| `Wire.BytesOfPoint` | src/nativeproof/wire.go:48-81 | Only canonical coordinates of proper points are read |
| `Wire.ReadPoint` | src/nativeproof/wire.go:48-81 | Reads exactly what the point parser accepts |
| `Wire.MarshalSigned` | src/nativeproof/wire.go:20-47 | Succeeds exactly on valid envelopes, with 472 bytes before the proof |
| `Wire.MarshalStatement` | src/nativeproof/wire.go:30-41 | Writes the statement's fields |
| `Wire.UnmarshalSigned` | src/nativeproof/wire.go:82-132 | Equals the parser; the length test makes every unchecked read succeed |
| `Wire.ReadStatement` | src/nativeproof/wire.go:93-120 | Equals the statement parser |
| `Wire.ReadPoints` | src/nativeproof/wire.go:97-112 | Equals the parser of the four points |
| `Wire.ReadNumbers` | src/nativeproof/wire.go:113-120 | Equals the parser of timestamp, quota and challenge |
| `Wire.SignedLayout` | src/nativeproof/wire.go:28-46 | Every field of an encoded signature at its fixed offset |
| `Wire.SignedOfBytes` | src/nativeproof/wire.go:20-132 | Decoding an encoded signature gives it back, for all proper points, 32-bit quotas above zero and 1 to 2^20 proof bytes |
| `Wire.BytesOfSigned` | src/nativeproof/wire.go:20-132 | Every accepted byte string is the encoding of such a signature, 472 bytes and the proof |
| `ParamsCodec.MarshalParams` | src/nativeproof/setup_encoding.go:19-35 | Succeeds exactly on valid parameters and writes their encoding |
| `ParamsCodec.UnmarshalParams` | src/nativeproof/setup_encoding.go:37-90 | Equals the parser |
| `ParamsCodec.ReadPoint` | src/nativeproof/setup_encoding.go:47-70 | Accepts exactly canonical encodings of proper points |
| `ParamsCodec.ReadBases` | src/nativeproof/setup_encoding.go:71-79 | Reads the three leading points |
| `ParamsCodec.ReadPowers` | src/nativeproof/setup_encoding.go:80-85 | Reads all powers or fails |
| `ParamsCodec.PowersOfBytes` | src/nativeproof/setup_encoding.go:29-32 | Encoded powers are read back, 32 bytes each |
| `ParamsCodec.BytesOfPowers` | src/nativeproof/setup_encoding.go:80-85 | Read powers re-encode to the input |
| `ParamsCodec.ParamsLayout` | src/nativeproof/setup_encoding.go:19-35 | Every part of an encoded parameter file at its fixed offset |
| `ParamsCodec.ParamsOfBytes` | src/nativeproof/setup_encoding.go:16-90 | Decoding encoded parameters gives them back, within the size budget |
| `ParamsCodec.BytesOfParams` | src/nativeproof/setup_encoding.go:37-90 | Every accepted byte string is the encoding of its parameters |
| `Layout.FlaggedIsMask` | src/nativeproof/backend.go:217-220 | The mask test is a comparison with 64 |
| `Layout.Point` | src/nativeproof/backend.go:212-225 | One point step stays in range |
| `Layout.Points` | src/nativeproof/backend.go:234-255 | Walking n points equals the skip function |
| `Layout.PointsSkipped` | src/nativeproof/backend.go:212-255 | Encoded points are walked over exactly |
| `Layout.SkippedPoints` | src/nativeproof/backend.go:212-255 | A successful walk passed that many well-formed points |
| `VerifyingKeys.PreflightVerifyingKey` | src/nativeproof/backend.go:209-291 | Accepts exactly when every part is there and nothing is left |
| `VerifyingKeys.WalkHead` | src/nativeproof/backend.go:234-246 | Walks the six fixed points |
| `VerifyingKeys.WalkVectors` | src/nativeproof/backend.go:247-286 | Walks public points, rows and commitment keys, each after its bounded count |
| `VerifyingKeys.Rows` | src/nativeproof/backend.go:260-271 | Walks the metadata rows with their running total |
| `VerifyingKeys.Count` | src/nativeproof/backend.go:226-233 | Reads a bounded count |
| `VerifyingKeys.KeyAccepted` | src/nativeproof/backend.go:209-291 | The encoding of every key of this shape within the numeric limits is accepted |
| `VerifyingKeys.AcceptedKey` | src/nativeproof/backend.go:209-291 | An accepted string is exactly the encoding of such a key, every count backed by bytes |
| `ProvingKeys.PreflightProvingKey` | src/nativeproof/setup_encoding.go:95-240 | Accepts exactly when domain, parts, flags and bases fit the circuit and nothing is left |
| `ProvingKeys.TakePoints` | src/nativeproof/setup_encoding.go:133-147 | Bounds check, slice and flag loop equal the skip function |
| `ProvingKeys.TakeVector` | src/nativeproof/setup_encoding.go:148-154 | A counted vector within its bound |
| `ProvingKeys.TakeFlags` | src/nativeproof/setup_encoding.go:203-218 | One zero-or-one flag per wire, with the declared number set |
| `ProvingKeys.TakeBases` | src/nativeproof/setup_encoding.go:223-235 | Two bases per commitment of the committed size |
| `ProvingKeys.WalkG1` | src/nativeproof/setup_encoding.go:155-180 | The G1 part, with private and quotient sizes of the circuit |
| `ProvingKeys.WalkG2` | src/nativeproof/setup_encoding.go:181-187 | The G2 part |
| `ProvingKeys.WalkInfinity` | src/nativeproof/setup_encoding.go:188-218 | Wire count, infinity counts and flags agree with the vectors |
| `ProvingKeys.WalkCommitments` | src/nativeproof/setup_encoding.go:219-235 | The commitment part |
| `ProvingKeys.KeyAccepted` | src/nativeproof/setup_encoding.go:95-240 | The encoding of every key that fits the circuit is accepted |
| `ProvingKeys.AcceptedKey` | src/nativeproof/setup_encoding.go:95-240 | An accepted string is exactly the encoding of such a key, infinity flags matching both vectors |
| `ProvingKeys.AcceptedLength` | src/nativeproof/setup_encoding.go:95-240 | The length of an accepted key in closed form from the circuit and its own infinity counts |
| `ProofLayout.PreflightProof` | src/nativeproof/backend.go:380-404 | Accepts exactly the layout for that commitment count |
| `ProofLayout.ProofAccepted` | src/nativeproof/backend.go:380-404 | The encoding of every such proof is accepted |
| `ProofLayout.AcceptedProof` | src/nativeproof/backend.go:380-404 | An accepted string is exactly the encoding of such a proof |
| `Ceremony.CeremonyDomain` | src/nativeproof/ceremony.go:20-29 | The least power of two n from 2 on with capacity+1 <= 2n-1 |
| `Ceremony.CheckContribution` | src/nativeproof/ceremony.go:34-78 | The walk accepts exactly the layout, and an accepted contribution has 192n+265 bytes |
| `Ceremony.Walk` | src/nativeproof/ceremony.go:39-45 | Walking n points equals the skip function |
| `Ceremony.WalkPowers` | src/nativeproof/ceremony.go:58-75 | The powers part |
| `Ceremony.ContributionLength` | src/nativeproof/ceremony.go:34-78 | After the points exactly 33 bytes are left if and only if the length is 192n+265 |
| `Ceremony.ContributionAccepted` | src/nativeproof/ceremony.go:31-78 | The encoding of every contribution of the stated shape is accepted |
| `Ceremony.AcceptedContribution` | src/nativeproof/ceremony.go:31-78 | Every accepted string is exactly the encoding of such a contribution |
| `Ceremony.CheckedChain` | src/nativeproof/ceremony.go:96-122 | Accepts exactly chains within count and size limits whose contributions are well-formed and linked |
| `Ceremony.TotalOf` | src/nativeproof/ceremony.go:104-107 | The total size of the chain |
| `Ceremony.LinkedTotal` | src/nativeproof/ceremony.go:96-122 | A linked chain has exactly its count times 192n+265 bytes |
| `Ceremony.BudgetExact` | src/nativeproof/ceremony.go:128-138 | The next contribution fits the chain limits if and only if the budget test passes |
| `Ceremony.PrefixAccepted` | src/nativeproof/ceremony.go:96-122 | Every prefix of an accepted chain is accepted |
| `Cursors.Cursor.Take` | src/protocol/serialization.cpp:12-48 | Advances by exactly the bytes it returns, never past the end |
| `Cursors.Cursor.Number` | src/protocol/serialization.cpp:22-27 | A big-endian integer of the given width |
| `Serialization.ReadField` | src/protocol/serialization.cpp:28-40 | Reads a length-prefixed field within the limits |
| `Serialization.FieldOfBytes` | src/protocol/serialization.cpp:28-68 | An encoded field is read back |
| `Serialization.BytesOfField` | src/protocol/serialization.cpp:28-68 | A read field re-encodes to the input |
| `Serialization.FieldInjective` | src/protocol/serialization.cpp:56-68 | Length-prefixed fields at the front of equal strings are equal, of any length |
| `Serialization.ReadExpected` | src/protocol/serialization.cpp:98-103 | A version or name field with the expected value |
| `Serialization.ReadElement` | src/protocol/serialization.cpp:107-109 | Reads a canonical element |
| `Serialization.ReadKey` | src/protocol/serialization.cpp:104-111 | Reads one account |
| `Serialization.ReadAccounts` | src/protocol/serialization.cpp:100-114 | Reads the counted accounts up to the end |
| `Serialization.EncodeKey` | src/protocol/serialization.cpp:70-76 | Appends one account |
| `Serialization.EncodeRingLabel` | src/protocol/serialization.cpp:86-93 | Writes the label encoding |
| `Serialization.DecodeRingLabel` | src/protocol/serialization.cpp:95-120 | Equals the parser |
| `Serialization.KeyOfBytes` | src/protocol/serialization.cpp:70-111 | An encoded account is read back |
| `Serialization.BytesOfKey` | src/protocol/serialization.cpp:70-111 | A read account re-encodes to the input |
| `Serialization.RingOfBytes` | src/protocol/serialization.cpp:86-120 | Decoding an encoded label within the limits gives it back |
| `Serialization.BytesOfRing` | src/protocol/serialization.cpp:95-120 | Only the encoding of a label within the limits is accepted |
| `Serialization.DecodePublicSignature` | src/protocol/serialization.cpp:148-166 | Equals the parser |
| `Serialization.ReadElements` | src/protocol/serialization.cpp:157-163 | Reads the five elements of a signature |
| `Serialization.SignatureOfBytes` | src/protocol/serialization.cpp:136-166 | Decoding an encoded public signature gives it back |
| `Serialization.BytesOfSignature` | src/protocol/serialization.cpp:148-166 | Only canonical encodings are accepted |
| `Serialization.RingInjective` | src/protocol/serialization.cpp:86-93 | Labels with equal encodings are equal, of any length |
| `Serialization.TranscriptInjective` | src/protocol/serialization.cpp:122-134 | Equal challenge transcripts have equal label, message, pseudonym and timestamp |

## Left out

- Curves, pairings, hash-to-curve, SHA-256, Groth16, FFTs, AEAD and the MPC protocol: represented by exponents, by functions with the range checks the code performs, or by the relation they decide.
- Anonymity, hardness assumptions, soundness of Groth16 and honesty of the ceremony: not decided by this code.
- `src/nativeproof/trust.go`, `context.go`, `setup.go`, the JSON and base64 parsing of requests, the demo engine, servers, web client and `src/legacy`: scope comparisons, text formats and user interface around the modelled cores.
- File system details: the model has atomic replacement, a visible and a durable version, failures on either side of the rename, and locks; a wallet file rolled back from outside is not part of a run.
- Process spawning, signals, polling and deadlines: an event of the schedule says what each call came to, and running out of events stands for an expired deadline.
- `link_clear` of `src/protocol/clear.cpp`: the conjunction that `Clear.ClearProtocol.Trace` starts with.
- `FinalizeQSDHCeremony` and gnark's own decoding of a contribution: `Ceremony.Gnark` holds what gnark decides.
- The derivation of clear-protocol secrets from a user's seed: secrets are inputs within the ranges of the scalar hashes.
- `set_digest` of `src/protocol/accumulator.cpp`: it sorts the encodings before hashing, so it is a function of the multiset of handles.
- Transport.NativeProcess.Stop: the child is marked gone; closing the descriptors, signalling and reaping the process are operating-system calls without a model.
- Validation of the vault's path, id and wrapping key, and the encryption of the wallet: the model's file holds the decrypted wallet.
- The choice of proof for a verify request: Groth16's answer is an argument of `Server.ServiceObject.VerifyRequest`; the statement check is computed.
- Error texts: an error is a value without a message.
- Integer widths: timestamps, quotas, counters and lengths carry their 32- or 64-bit bounds explicitly; slice lengths and Go ints are unbounded otherwise.
