# A verified model of parts of a Hyperledger Fabric 1.4 fork

The project models eight parts of the repository and proves what each of them is for.

**Config updates** (`Paths`, `ConfigTree`, `ConfigMap`, `ConfigRebuild`, `ConfigUpdate`, `ConfigCoverage`, `ConfigAuthority`,
`ConfigValidator`).
A channel configuration is a tree of groups, values and policies. An update is checked on a flat map from prefixed,
slash-joined paths to elements: the read set must match, the elements of the delta must rise by one version and have
the policy named by their existing mod_policy accept the update, and the new tree is rebuilt from the overlaid map.
Policy evaluation is a parameter. Proved: flattening loses nothing, a rebuild of a flattened tree gives the tree back,
which updates of trees are authorised and which policy of the tree has to approve each element, that the rebuild after
an authorised update cannot fail, that every difference between the old and the new tree is covered by an approved
element at or above it, and that whole runs of updates keep sequence and versions.

**Policy manager** (`PolicyManager`). The index of policies by relative path agrees with a walk through the managers, and
holds exactly the policies of the tree, each as it was compiled.

**Idemix** (`Modular`, `IdemixCurve`, `IdemixIssuerKey`, `IdemixIssuance`, `IdemixAlgebra`, `IdemixSignature`,
`IdemixCompleteness`, `IdemixBinding`, `IdemixExtraction`, `IdemixSoundness`). Group elements are represented by their discrete logarithms modulo the prime group order, the
pairing multiplies logarithms, and hash and encodings are arbitrary functions of the curve record; random values are
inputs. Proved: what honest parties produce is accepted, with the exact condition on the random values in each case; a
challenge binds everything that was hashed, up to a collision at the very strings hashed; and from two accepted proofs
that answer different challenges for the same commitments the secrets can be computed (special soundness).

**Discovery cache** (`AuthCache`). Calls run concurrently: one step for each lock region and each read of the config
sequence, and an environment step that raises the sequence. Proved over all interleavings: no stale answer, and a bound
on the size of the cache.

**Signature policies** (`SignaturePolicy`, `SignatureSet`). The compiled evaluator consumes signatures greedily. Proved:
what it accepts is supported by valid signatures of distinct signers, when it equals the plain threshold formula, and
when a signature that is not valid can be left out.

**Tree permutations** (`Choose`, `Tree`, `Permutations`, `Permute`). Index sets live in slices over shared backing
arrays; the capacity that append gives is a parameter. Proved: the rewriting loop leaves one tree for each way of
picking recorded entries top-down, and exactly when the recorded entries are all the combinations.

**Reorder buffer** (`ReorderBuffer`). Messages of a client are dispatched in the order of their counts.

**Deliver sessions** (`Deliver`) and **logger levels** (`LoggerLevels`).

`Sequences` and `Wrappers` hold what several modules share.

Some properties that one might expect fail for the code as written. Each has a lemma with the failing case, and the
exact condition unless stated otherwise:

- index sets are overwritten through a shared backing array (`Choose.SetOverwritten`, `Choose.RecordedRightIff`);
- pruning goes below the threshold, or panics, for a bound below one (`Choose.PrunedSizeExact`);
- the greedy evaluator may refuse what the formula and a one-to-one assignment allow
  (`SignaturePolicy.GreedyMissesAssignment`). It never accepts what the formula forbids (`SignaturePolicy.AcceptedHolds`).
  For a set of principals signed for, it is the formula for all signatures exactly when one principal suffices
  (`SignaturePolicy.GreedyIsFormulaIff`, for policies whose gates all ask for at least one rule). For one given list of
  signatures, that each matches at most one leaf is sufficient (`SignaturePolicy.EvaluatorRefinesFormula`); no converse
  is given there, because whether a signature that is taken is missed later depends on what the remaining rules of
  every gate above it yield, which only the evaluation itself determines;
- a signature that does not verify can hide a later valid one of the same identity, because duplicates are removed before
  signatures are verified (`SignatureSet.DroppingInvalidIff`, with the failing case in `SignatureSet.DroppedDiffers`);
- GetPolicy panics on one id (`PolicyManager.GetPolicyPanicsIff`), which is accepted as a mod_policy and then keeps its
  element from ever being changed (`ConfigUpdate.PolicyPanicsIff`, `ConfigUpdate.PanickingModPolicyAccepted`,
  `ConfigUpdate.PanickingElementStays`), and it ignores the character between a manager's path and the rest of an
  absolute id (`PolicyManager.AbsoluteFoundIff`);
- a cache from which nothing is evicted grows without bound (`AuthCache.NoBoundWithoutEviction`, `AuthCache.SizeBound`);
- idemix panics, rejects or does not return for particular inputs (`IdemixIssuance.RequestCompleteness`,
  `IdemixIssuance.CredentialCompleteness`, `IdemixIssuerKey.IssuerKeyCompleteness`,
  `IdemixCompleteness.SignatureCompleteness`);
- a session forgets a refusal (`Deliver.RefusalForgotten`, with the condition in
  `Deliver.SessionAccessControl.Evaluate`);
- a deliver request whose stop lies before its start is refused only for a specified stop; otherwise it sends blocks and
  cannot succeed before the block numbers wrap around (`Deliver.NewestBehindStart`, `Deliver.StartToStop`).

Where documentation and code differ the model follows the code. The comment on Permute says that descendants are
pruned until the number of combinations is lower than the bound; the code stops as soon as it does not exceed the
bound. In this fork `policy.Evaluate` returns no error when the compiled evaluator refuses
(pobl/common/cauthdsl/policy.go:157-162), so the claims here are about the compiled evaluator, and in the config update
engine policy evaluation stays a parameter.

## Model

| member | source | states |
|---|---|---|
| Paths.RootedInjective | pobl/common/configtx/configmap.go:59-63 | two lists of slash-free names that join to the same path are the same list |
| Paths.SplitJoin | pobl/common/configtx/update.go:47-65 | splitting at slashes gives slash-free names that join back to the string |
| ConfigTree.ValidConfigIDIff | pobl/common/configtx/validator.go:48-68 | an id is accepted exactly when its length is in bounds, all its characters are allowed and it is neither "." nor ".."; accepted ids hold no slash |
| ConfigTree.ValidChannelIDIff | pobl/common/configtx/validator.go:80-97 | a channel id is accepted exactly when it is non-empty, within length, starts with a lower-case letter and continues with lower-case letters, digits, periods and dashes |
| ConfigMap.FqPathInjective | pobl/common/configtx/configmap.go:43-70 | the prefixed path determines both the kind of element and its names |
| ConfigMap.FqPathLayout | pobl/common/configtx/configmap.go:17-22 | a key is the nine-character prefix of its kind, a slash, and the names joined by slashes |
| ConfigMap.FlattenExact | pobl/common/configtx/configmap.go:31-100 | the flat map holds exactly one entry for every element present in the tree, under its path, with that element's content |
| ConfigMap.FlatConfig.AddToMap | pobl/common/configtx/configmap.go:43-70 | refuses exactly the invalid keys and otherwise adds one entry under the element's path |
| ConfigMap.FlatConfig.RecurseConfig | pobl/common/configtx/configmap.go:73-100 | succeeds exactly when every name at and below the group is valid, and then has added the flattened group and nothing else |
| ConfigMap.FlatConfig.RecurseGroups | pobl/common/configtx/configmap.go:78-85 | the loop over sub-groups, as RecurseConfig |
| ConfigMap.FlatConfig.AddValues | pobl/common/configtx/configmap.go:87-91 | the loop over values, as RecurseConfig |
| ConfigMap.FlatConfig.AddPolicies | pobl/common/configtx/configmap.go:93-97 | the loop over policies, as RecurseConfig |
| ConfigMap.MapConfig | pobl/common/configtx/configmap.go:31-40 | empty for an absent tree, an error exactly for invalid names, otherwise the flattened tree |
| ConfigRebuild.RecurseConfigMap | pobl/common/configtx/configmap.go:111-189 | the imperative rebuild returns what the recursive reading of the map gives, errors included, and terminates because paths cannot outgrow the longest key |
| ConfigRebuild.RebuildGroups | pobl/common/configtx/configmap.go:125-131 | the loop over sub-groups fails exactly when one of them cannot be rebuilt |
| ConfigRebuild.CopyValues | pobl/common/configtx/configmap.go:133-143 | the loop over values fails exactly when an entry is missing or of another kind, and otherwise copies each entry |
| ConfigRebuild.CopyPolicies | pobl/common/configtx/configmap.go:145-156 | as CopyValues, for policies |
| ConfigRebuild.UpgradeEmpty | pobl/common/configtx/configmap.go:158-186 | sets the empty mod_policies of a group, its values and its policies to Admins and touches nothing else |
| ConfigRebuild.RebuildFlattened | pobl/common/configtx/configmap.go:104-189 | rebuilding any map that contains a flattened subtree gives that subtree, upgraded or not |
| ConfigRebuild.CapabilitiesIff | pobl/common/configtx/configmap.go:158-165 | the upgrade key is in the flattened map exactly when the tree has the orderer capabilities value below a root named Channel |
| ConfigRebuild.UpgradedLeavesNoneEmpty | pobl/common/configtx/configmap.go:158-186 | an upgraded tree has no empty mod_policy anywhere |
| ConfigRebuild.RoundTrip | pobl/common/configtx/configmap.go:31-189 | for every tree with valid names configMapToConfig after mapConfig gives the tree, or with the capabilities key the tree with all empty mod_policies set |
| ConfigRebuild.RebuildSucceeds | pobl/common/configtx/configmap.go:111-156 | a map whose entries have the right kinds and whose groups name only present elements is rebuilt without an error |
| ConfigRebuild.RebuildAt | pobl/common/configtx/configmap.go:111-189 | every element of the rebuilt tree is the element stored under its path, up to the upgrade, and none is missing or added |
| ConfigUpdate.ComputeDeltaSet | pobl/common/configtx/update.go:31-45 | the delta is exactly the write set entries that are absent from the read set or have another version there |
| ConfigUpdate.ComputeUpdateResult | pobl/common/configtx/update.go:192-202 | the result is the current map overlaid by the delta |
| ConfigUpdate.AuthorizeIff | pobl/common/configtx/update.go:114-158 | an update is authorised exactly when its sets can be flattened, the read set matches and every delta element is allowed; ConfigAuthority says what that means on trees |
| ConfigUpdate.CheckDeltaSet | pobl/common/configtx/update.go:67-101 | in any order of iteration: passes exactly when every delta element is allowed, and fails or crashes only for an element that is refused or crashes |
| ConfigUpdate.Authorize | pobl/common/configtx/update.go:114-158 | returns the full configuration exactly when the update is authorised, and crashes only for a delta element whose policy lookup crashes |
| ConfigUpdate.PolicyPanicsIff | pobl/common/configtx/update.go:160-189 | the policy lookup of an element crashes exactly when its mod_policy is the absolute path of the policy manager |
| ConfigUpdate.PanickingModPolicyAccepted | pobl/common/configtx/update.go:47-101 | from every valid state whose root policy accepts, an update that sets that mod_policy on the root group is authorised |
| ConfigUpdate.PanickingElementStays | pobl/common/configtx/update.go:67-101 | no authorised update changes an element that has that mod_policy |
| ConfigUpdate.FullConfigVerifies | pobl/common/configtx/update.go:103-110 | once the read set matches, the last check, that the result contains the write set, cannot fail |
| ConfigUpdate.OverlayClosed | pobl/common/configtx/update.go:142-157 | the overlay of two coherent maps, the second closed within them, is coherent |
| ConfigUpdate.FullConfigCoherent | pobl/common/configtx/update.go:114-158 | the map an authorised update produces is coherent and holds the root group |
| ConfigUpdate.RebuildNeverFails | pobl/common/configtx/update.go:142-157 | for every valid state and update that is authorised, the rebuild of the result succeeds |
| ConfigUpdate.RootUpdateIff | pobl/common/configtx/update.go:114-158 | from every valid state the update that raises only the root group and gives it a mod_policy is authorised exactly when that is well formed and the existing policy accepts, and changes only the root entry |
| ConfigCoverage.SurvivorStep | pobl/common/configtx/update.go:67-101 | an element present before and after an authorised update either is unchanged up to the upgrade, or rose by exactly one version with its existing policy's approval |
| ConfigCoverage.CoverFrom | pobl/common/configtx/update.go:67-101 | an element that appears or disappears lies below an existing group that was approved |
| ConfigCoverage.AuthorisationCoverage | pobl/common/configtx/update.go:67-158 | every address at which the new tree differs from the old has, at or above it, an element that existed, rose by exactly one version and had its existing mod_policy evaluate to success |
| ConfigAuthority.GuardingPolicy | pobl/common/configtx/update.go:160-189 | the policy of an element with a relative mod_policy is the one the index has under the names of its own group (a group) or of its parent (a value or policy) followed by the mod_policy, with that full name, and there is none exactly when the index has none |
| ConfigAuthority.GuardingPolicyAt | pobl/common/configtx/update.go:160-189 | in the tree the managers are built from, that policy is the one at the address made of those names and the parts of the mod_policy, compiled against the managers below its group; it is found exactly when the address is present |
| ConfigAuthority.GuardingPolicyAbsolute | pobl/common/configtx/update.go:160-189 | an absolute mod_policy is looked up in the whole index wherever the element is, and is found exactly when it is the path of the top manager, one character and a path in the index; an empty one is rejected |
| ConfigAuthority.ReadSetCurrent | pobl/common/configtx/update.go:17-29 | the read set is verified exactly when every element of the read tree is present in the configuration at the same version |
| ConfigAuthority.DeltaSetAllowed | pobl/common/configtx/update.go:67-101 | the delta is accepted exactly when some element is proposed, and each proposed one has a well-formed mod_policy and either is new at version 0 or follows the present one by one, modulo 2^64, with the approval of the policy found for it |
| ConfigAuthority.AuthorizedIff | pobl/common/configtx/update.go:114-158 | on trees: an update is authorised exactly when it is for this channel, its names are valid, all it read is current, and it proposes something, all of it allowed |
| ConfigAuthority.ValidModPolicyIff | pobl/common/configtx/update.go:47-65 | a mod_policy is well formed exactly when it is a non-empty list of valid names joined by slashes, with or without one slash in front |
| ConfigAuthority.ChangeApprovedBy | pobl/common/configtx/update.go:67-189 | every change an authorised update makes was accepted by a policy; where the mod_policy of the covering element is relative, that policy was compiled from the old tree at the address the mod_policy names from the home of that element |
| ConfigValidator.NewValidatorIff | pobl/common/configtx/validator.go:100-126 | construction succeeds exactly for a valid channel id, a valid namespace and a tree with valid names, and the state is what was given |
| ConfigValidator.ProposalIsWhatValidates | pobl/common/configtx/validator.go:130-194 | a proposal succeeds exactly when the update is authorised, and Validate accepts what was proposed at the same state |
| ConfigValidator.NewTreeNamesValid | pobl/common/configtx/validator.go:134-157 | the proposed tree has valid names, so the next validator can be built from it |
| ConfigValidator.AcceptedStep | pobl/common/configtx/validator.go:160-194 | an accepted update was authorised, raises the sequence by one and leaves channel and namespace as they were |
| ConfigValidator.RunsNeverGetStuck | pobl/common/configtx/validator.go:100-194 | from every valid state an accepted update leads to a state from which the next validator can be built |
| ConfigValidator.RunSequence | pobl/common/configtx/validator.go:134-194 | after i accepted updates the sequence has risen by i, modulo 64-bit wrap-around |
| ConfigValidator.RunElement | pobl/common/configtx/update.go:67-101 | along any run an element that is always present has its version raised, modulo 2^64, by exactly the number of approvals it got, and with none keeps its content up to the upgrade |
| PolicyManager.NewManagerImpl | pobl/common/policies/policy.go:167-227 | whatever the order of iteration: the index has every policy of the group as compiled from its bytes against the sub-managers, for slash-free names always and for others unless a policy of a sub-manager has that path; for slash-free names the manager is the one the recursive definition gives |
| PolicyManager.AddInherited | pobl/common/policies/policy.go:216-220 | adds every policy of every sub-manager under its path from here; of policies with the same path, one of a sub-manager |
| PolicyManager.WalkBuilds | pobl/common/policies/policy.go:236-251 | following group names leads to the manager built for the group at that address, and fails exactly where the tree has no such group |
| PolicyManager.OwnPolicyFound | pobl/common/policies/policy.go:186-302 | a group's policy is found under its non-empty name, with its full name, as compiled against the sub-managers |
| PolicyManager.IndexExact | pobl/common/policies/policy.go:167-227 | for slash-free names the index holds a joined path exactly when the tree has a policy at that address, and then that policy as compiled against the managers below its own group |
| PolicyManager.IndexWalk | pobl/common/policies/policy.go:167-251 | a joined path is in the index exactly when the walk finds a manager that has the policy, with the same policy |
| PolicyManager.IndexAgreesWithWalk | pobl/common/policies/policy.go:236-302 | GetPolicy on a joined path gives the same policy and full name as Manager on the path and GetPolicy there, and is rejected exactly when the walk fails |
| PolicyManager.AbsoluteAgreesWithRelative | pobl/common/policies/policy.go:274-302 | an absolute id that is the manager's path, any one character and a relative id is looked up as the relative id |
| PolicyManager.AbsoluteFoundIff | pobl/common/policies/policy.go:274-302 | the absolute ids that are found are exactly the manager's path, any one character and a path in the index, whose policy and full name are returned |
| PolicyManager.GetPolicyPanicsIff | pobl/common/policies/policy.go:274-302 | the lookup panics exactly on the absolute id that is the manager's own path |
| IdemixCurve.AddPairs | pobl/idemix/credential.go:131-142 | adding two bases at a time, with a single one left over for an odd count, gives the whole sum |
| IdemixCurve.AppendBytes | pobl/idemix/util.go:54-83 | copies the bytes over the buffer from the index on, cutting off what does not fit, keeps the rest and returns the index behind them |
| IdemixIssuerKey.NewIssuerKey | pobl/idemix/issuerkey.go:29-110 | an error exactly for duplicate attribute names, otherwise the key with its proof of knowledge |
| IdemixIssuerKey.PublicKey.SetHash | pobl/idemix/issuerkey.go:175-183 | sets the hash over the key with the hash field cleared |
| IdemixIssuerKey.PublicKey.Check | pobl/idemix/issuerkey.go:114-172 | accepts exactly when the recomputed commitments hash to the challenge, and resets the hash field |
| IdemixIssuerKey.IssuerKeyCompleteness | pobl/idemix/issuerkey.go:29-172 | a fresh key passes Check exactly when the random base is not the identity, keeps its hash, and has the bases and the key that were drawn |
| IdemixIssuance.NewCredRequest | pobl/idemix/credrequest.go:35-73 | writes the proof data into a buffer and builds the request, or panics when the nonce overruns the buffer |
| IdemixIssuance.CheckRequest | pobl/idemix/credrequest.go:76-109 | recomputes the commitment and compares challenges |
| IdemixIssuance.RequestCompleteness | pobl/idemix/credrequest.go:35-109 | a request is built unless its nonce is longer than two field elements, and then passes exactly when there is a nonce |
| IdemixIssuance.NewCredential | pobl/idemix/credential.go:37-107 | checks the request and the attribute count, accumulates B in a loop and signs it; panics when a base is missing and does not return when e plus the issuer key is zero |
| IdemixIssuance.Ver | pobl/idemix/credential.go:111-160 | recomputes B two attributes at a time and tests the pairing equation; panics for more attributes than bases |
| IdemixIssuance.CredentialCompleteness | pobl/idemix/credential.go:37-160 | for every number of attributes: issuing does not return exactly when e plus the issuer key is not invertible, and an issued credential always verifies |
| IdemixIssuance.CredentialAcceptedIff | pobl/idemix/credential.go:111-160 | the converse: Ver accepts a credential exactly when B is the signed message and A to the e plus x is B, for the x in the issuer's key, and panics exactly for more attributes than bases |
| IdemixSignature.HiddenIndices | pobl/idemix/signature.go:38-46 | the indices returned are exactly the hidden ones, increasing |
| IdemixSignature.AddDisclosed | pobl/idemix/signature.go:321-327 | accumulates the disclosed attributes onto the generator |
| IdemixSignature.DotSplits | pobl/idemix/signature.go:312-328 | the sum over all attributes is the hidden sum and the disclosed sum together |
| IdemixSignature.ComputeChallenge | pobl/idemix/signature.go:164-197 | the challenge is the two-stage hash over commitments, points, key hash, disclosure, message and nonce |
| IdemixSignature.NewSignature | pobl/idemix/signature.go:53-240 | the imperative signer produces the signature of its specification, with errors, panics and the case in which it does not return, in the order of the source |
| IdemixSignature.Ver | pobl/idemix/signature.go:246-407 | the imperative verifier decides its specification, with errors and panics in the order of the source; IdemixBinding and IdemixSoundness say what acceptance means |
| IdemixCompleteness.FirstRecovered | pobl/idemix/signature.go:305-310 | the verifier recomputes the first commitment of an honest signer |
| IdemixCompleteness.SecondRecovered | pobl/idemix/signature.go:312-328 | the verifier recomputes the second commitment, for any split into hidden and disclosed attributes |
| IdemixCompleteness.ThirdRecovered | pobl/idemix/signature.go:330-332 | the verifier recomputes the third commitment |
| IdemixCompleteness.CommitmentsRecoveredAll | pobl/idemix/signature.go:85-160 | the points of a signature are the credential randomised with r1 and r2, and the verifier recomputes the commitments to the random numbers drawn |
| IdemixCompleteness.SignatureCompleteness | pobl/idemix/signature.go:53-407 | over any honest credential and pseudonym, any number of attributes and any disclosure: signing does not return exactly when r1 is not invertible, otherwise panics exactly when nothing from the revocation handle on is hidden, and otherwise gives a signature that is accepted exactly when A is not the identity |
| IdemixCompleteness.EndToEnd | pobl/idemix/issuerkey.go:29-110 | fresh key, request, credential, pseudonym and signature are all accepted in sequence |
| IdemixBinding.AcceptedIff | pobl/idemix/signature.go:246-407 | a signature is accepted exactly when index, disclosure and responses fit the key, something from the revocation handle on is hidden, A' is not the identity, e(w, A') is e(g2, ABar), and the challenge is the two-stage hash of label, recomputed commitments, points, key hash, disclosure, message and nonce |
| IdemixSoundness.SpecialSoundness | pobl/idemix/signature.go:246-407 | two accepted signatures with the same points and recomputed commitments and different challenges, under two digests or one, reveal a credential of the issuer with the disclosed attributes, the secret key and the randomness of the pseudonym; the credential is trivial exactly when the responses for r3 agree |
| IdemixSoundness.RewoundSigner | pobl/idemix/signature.go:53-240 | an honest signer with the same random numbers, asked under two digests or for two messages, gives two accepted signatures with the same points and commitments, so that the extraction applies whenever the challenges differ |
| IdemixBinding.SignatureBinds | pobl/idemix/signature.go:334-405 | two accepted signatures with the same challenge have the same message, disclosure, nonce, points and commitments, or the hash collides at the strings hashed for them |
| IdemixBinding.OneMessage | pobl/idemix/signature.go:334-405 | a signature accepted for two messages is a collision of the hash at strings that end in them, or at the two second-stage strings made from these |
| IdemixSoundness.RequestExtraction | pobl/idemix/credrequest.go:76-109 | two accepted requests with the same commitment and different challenges reveal the secret key in the pseudonym |
| IdemixBinding.RequestBinds | pobl/idemix/credrequest.go:76-109 | two accepted requests with the same challenge have the same commitment, base, pseudonym and nonce, or the hash collides at the strings hashed for them |
| IdemixSoundness.IssuerKeyExtraction | pobl/idemix/issuerkey.go:114-172 | two accepted keys with the same commitments and different challenges, under two digests, reveal the secret key in both its forms |
| IdemixBinding.IssuerKeyBinds | pobl/idemix/issuerkey.go:114-172 | two accepted keys with the same challenge have the same commitments, base and key, or the hash collides at the strings hashed for them |
| IdemixBinding.KeyHashBinds | pobl/idemix/issuerkey.go:175-183 | two keys with the same hash have the same serialisation, the hash left out, or the hash collides there; setting the hash changes nothing else |
| AuthCache.AccessCache.ConfigChange | pobl/discovery/authcache.go:174-180 | drops all entries and records the sequence |
| AuthCache.AccessCache.PurgeEntries | pobl/discovery/authcache.go:147-166 | removes as many entries as the eviction amount and leaves the others as they were |
| AuthCache.AccessCache.Store | pobl/discovery/authcache.go:125-138 | adds the answer under the key |
| AuthCache.AccessCache.EligibleForService | pobl/discovery/authcache.go:102-139 | a call that nothing interrupts takes exactly steps of the state machine over which the next results are proved; an entry that is there under the current sequence is returned and nothing changes; otherwise the computed answer is returned, the entries are those under the current sequence with room made for one more, and the answer is added exactly when the sequence is still the same |
| AuthCache.AccessCache.ComputeAndStore | pobl/discovery/authcache.go:118-138 | the rest of a call after a miss, as EligibleForService |
| AuthCache.AccessCache.PurgeEntriesIfNeeded | pobl/discovery/authcache.go:147-166 | the size check and the purge, as EligibleForService |
| AuthCache.InvStep | pobl/discovery/authcache.go:102-139 | every step of every call and of the environment keeps the invariant that stored entries were computed at or after the last sequence acted on |
| AuthCache.NoStaleAnswers | pobl/discovery/authcache.go:102-139 | in every state of every interleaving, each answer returned was computed under a sequence between the one at the call's start and the one at its return |
| AuthCache.SizeBound | pobl/discovery/authcache.go:118-166 | if anything is evicted and at most K calls are in flight, the number of entries never exceeds the maximum, or one if that is smaller, plus K minus one |
| AuthCache.NoBoundWithoutEviction | pobl/discovery/authcache.go:147-166 | with an eviction amount of zero, runs exist that fill the cache to any size |
| SignaturePolicy.Deduplicate | pobl/common/cauthdsl/cauthdsl.go:23-42 | keeps the first signature of each identity, in order |
| SignaturePolicy.FirstsDistinct | pobl/common/cauthdsl/cauthdsl.go:23-42 | what is kept has pairwise distinct identity keys, and every key is kept |
| SignaturePolicy.CompileIff | pobl/common/cauthdsl/cauthdsl.go:46-125 | compilation succeeds exactly for policies without nil nodes or identity indices out of range |
| SignaturePolicy.Evaluate | pobl/common/cauthdsl/cauthdsl.go:62-121 | the evaluator on arrays, with its copies of the used marks, gives verdict and marks of the recursive evaluator, about which the next rows speak |
| SignaturePolicy.EvaluatorSound | pobl/common/cauthdsl/cauthdsl.go:62-121 | if the evaluator accepts, a choice of leaves meets every threshold and maps one-to-one onto positions that were unused and are exactly those newly marked; each holds a signature that verifies, by an identity that deserialises and satisfies the principal of its leaf |
| SignaturePolicy.DistinctSigners | pobl/common/cauthdsl/cauthdsl.go:23-121 | after deduplication the supporting positions carry pairwise distinct identities, compared by organisation and id written together |
| SignaturePolicy.EvaluatorRefinesFormula | pobl/common/cauthdsl/cauthdsl.go:62-121 | when each signature satisfies at most one leaf, which is sufficient and not necessary, the evaluator accepts exactly when the threshold formula holds, at any nesting |
| SignaturePolicy.AcceptedHolds | pobl/common/cauthdsl/cauthdsl.go:62-121 | for every policy, list of signatures and used marks, what the evaluator accepts satisfies the threshold formula |
| SignaturePolicy.AgreesIfOneSuffices | pobl/common/cauthdsl/cauthdsl.go:62-121 | for every policy: if the formula, when true of the principals signed for, can be met by one of them, evaluator and formula agree on every list of signatures that covers them |
| SignaturePolicy.GreedyIsFormulaIff | pobl/common/cauthdsl/cauthdsl.go:62-121 | for the principals signed for, evaluator and formula agree however signatures cover them exactly when the formula, if true, can be met by one principal through gates that ask for one rule |
| SignaturePolicy.GreedyMissesAssignment | pobl/common/cauthdsl/cauthdsl.go:83-121 | without that condition the evaluator may refuse although formula and a one-to-one assignment hold |
| SignatureSet.InvalidIgnored | pobl/common/cauthdsl/cauthdsl.go:94-118 | changing signatures that do not verify or do not deserialise changes neither the verdict nor the marks |
| SignatureSet.InvalidDropped | pobl/common/cauthdsl/cauthdsl.go:94-118 | dropping such a signature with its mark leaves the verdict and all other marks as they were |
| SignatureSet.DroppedDiffers | pobl/common/cauthdsl/cauthdsl.go:23-118 | before deduplication that fails: a policy is refused, and accepted without a signature that does not verify, when the next one of the same identity is valid |
| SignatureSet.DroppingInvalidIff | pobl/common/cauthdsl/policy.go:145-157 | leaving out a signature that is not valid before deduplication changes no verdict of any policy, exactly unless it is the first of its identity and the next of that identity is valid |
| Choose.CombinationsCount | pobl/common/graph/choose.go:50-65 | the recursion reaches C(n, k) sets |
| Choose.CombinationsExact | pobl/common/graph/choose.go:50-65 | the sets reached are exactly the increasing k-element sets that continue what was taken |
| Choose.CombinationsOrdered | pobl/common/graph/choose.go:50-65 | they come in lexicographic order, so none comes twice |
| Choose.Append | pobl/common/graph/choose.go:62-62 | writes in place while there is capacity, otherwise into a new array; other arrays and the used part stay as they are |
| Choose.ChooseFrom | pobl/common/graph/choose.go:50-65 | one slice is recorded per set, reading as its set up to the part written before its backing array was shared |
| Choose.ChooseKoutOfN | pobl/common/graph/choose.go:40-48 | the contents of the recorded slices at the end |
| Choose.RecordedSets | pobl/common/graph/choose.go:40-65 | whatever the sharing, C(n, k) sets of k increasing positions are recorded |
| Choose.RecordedRightIff | pobl/common/graph/choose.go:50-65 | the recorded sets are the combinations exactly when n is at most k, or k is zero, or a slice of length k - 1 is full |
| Choose.SetOverwritten | pobl/common/graph/choose.go:62-62 | four out of five with doubling capacities: the set 0, 1, 2, 3 is not among the recorded ones |
| Choose.PrunedSizeExact | pobl/common/graph/perm.go:111-115 | with a bound of at least one the pruning loop ends, never below the threshold where there was that much, with the largest number of descendants within the bound; with a smaller bound it ends one below the threshold, or panics for a threshold of zero |
| Tree.Find | pobl/common/graph/tree.go:55-65 | finds a vertex with the id exactly when there is one |
| Tree.CloneIsCopy | pobl/common/graph/tree.go:74-85 | a copy has the same vertices with the same data in the same places, and no thresholds |
| Tree.SameCloneIff | pobl/common/graph/tree.go:74-85 | two trees have the same copy exactly when they differ in thresholds only |
| Tree.ReplaceAbsent | pobl/common/graph/tree.go:89-97 | replacing below an id that is not there changes nothing |
| Tree.ReplaceInClone | pobl/common/graph/tree.go:74-97 | up to thresholds, replacing in a copy is replacing in the tree |
| Tree.BfsIterator.Next | pobl/common/graph/tree.go:135-144 | takes the head of the queue and appends its descendants, with one vertex less to visit |
| Tree.FrontierStep | pobl/common/graph/tree.go:135-144 | on a tree with unique ids every step keeps that the vertices not visited lie, once and whole, in the queue, below visited ones |
| Permutations.Prune | pobl/common/graph/perm.go:111-115 | keeps descendants in order, as many as PrunedSizeExact describes, whatever the random picks |
| Permutations.RestrictStep | pobl/common/graph/perm.go:70-84 | restricting one more vertex is replacing its descendants wherever it is left |
| Permutations.HasReached | pobl/common/graph/perm.go:57-63 | the test for the vertex in a permutation says exactly whether the picks so far leave it |
| Permute.PickedMeetsThresholds | pobl/common/graph/perm.go:39-93 | every picked tree consists of vertices and edges of the pruned tree, and every inner vertex has exactly threshold descendants |
| Permute.TreePermutations.AddEntries | pobl/common/graph/perm.go:117-121 | appends index sets to those of one vertex |
| Permute.TreePermutations.Record | pobl/common/graph/perm.go:105-121 | prunes one inner vertex and records its index sets |
| Permute.TreePermutations.ComputeDescendantPermutations | pobl/common/graph/perm.go:97-123 | every inner vertex is pruned as described and has its index sets recorded; panics exactly when the bound is below one and some inner vertex has threshold zero |
| Permute.TreePermutations.Part | pobl/common/graph/perm.go:53-66 | parts the permutations by whether they have the vertex |
| Permute.TreePermutations.Expand | pobl/common/graph/perm.go:53-85 | keeps one permutation per way of picking with one more vertex done |
| Permute.TreePermutations.Permute | pobl/common/graph/perm.go:39-93 | for unique ids the result is, up to thresholds, exactly one tree for each way of picking, top-down, one recorded entry at every inner vertex that is left, and no others |
| ReorderBuffer.KeyInjective | pobl/core/chaincode/handler.go:477-478 | keys of one client are equal only for equal counts |
| ReorderBuffer.Handler.Receive | pobl/core/chaincode/handler.go:458-509 | every message keeps the buffer consistent; it is passed on, dispatched with all that follow it, or stored |
| ReorderBuffer.Handler.ProcessMsgChan | pobl/core/chaincode/handler.go:456-516 | after any sequence of messages, up to the first without content, the buffer is consistent: client messages dispatched carry 0, 1, 2, ... up to the next count, which is not in the map |
| ReorderBuffer.HoldsTheOthers | pobl/core/chaincode/handler.go:456-516 | with distinct counts the map holds exactly the client messages received and not dispatched |
| ReorderBuffer.NextIsMissing | pobl/core/chaincode/handler.go:479-501 | the next count is the number dispatched and has not been received |
| ReorderBuffer.AnyArrivalOrder | pobl/core/chaincode/handler.go:456-516 | messages numbered 0 to n - 1, in any order, are dispatched in order and leave the map empty |
| Deliver.SessionAccessControl.Evaluate | pobl/common/deliver/acl.go:57-75 | refuses when expired or when a needed check fails; a check is needed exactly when none was made or the sequence has risen; afterwards the session is under cover exactly when the needed check succeeded or, with none needed, it was before |
| Deliver.RefusalForgotten | pobl/common/deliver/acl.go:57-75 | in any session, after a refusal with the identity not expired and the sequence not risen, the next evaluation is allowed whatever the checker would say, and not under cover |
| Deliver.CoverMeaning | pobl/common/deliver/acl.go:62-74 | cover means a successful check after the newest sequence observed first appeared |
| Deliver.SendsIff | pobl/common/deliver/deliver.go:298-352 | a pass sends its block exactly when the block is ready if that is asked, is read, the session has not expired, the check succeeds if the sequence has risen, and the send succeeds |
| Deliver.SendBlocks | pobl/common/deliver/deliver.go:298-356 | success exactly when each pass sent its block and the last one is the stop block; consecutive blocks only, each under cover, on every path; otherwise the status is that of what the last pass met first |
| Deliver.DeliverBlocks | pobl/common/deliver/deliver.go:256-356 | FORBIDDEN exactly for a refused session, BAD_REQUEST before the loop exactly for a missing start or stop or a specified stop before the start; on success a specified stop n gives the blocks from the start to n, an oldest stop or newest to newest just the start, and newest otherwise the blocks up to the newest one, modulo 2^64 |
| Deliver.StartToStop | pobl/common/deliver/deliver.go:274-356 | a successful run has sent the blocks start, start + 1, ..., stop modulo 2^64; no number wraps around exactly when the stop is not before the start |
| Deliver.NewestBehindStart | pobl/common/deliver/deliver.go:274-296 | a request from the block after the newest to the newest is taken with a stop before the start, and meets it on none of its first 2^64 - 1 passes |
| Deliver.SentUnderCheck | pobl/common/deliver/deliver.go:335-342 | every block sent follows a successful check made after the newest sequence observed by then first appeared |
| LoggerLevels.ParseField | pobl/common/flogging/loggerlevels.go:48-79 | a segment is accepted exactly when it is well formed, and then the last word on default and loggers is its own |
| LoggerLevels.Minimum | pobl/common/flogging/loggerlevels.go:83-88 | the least of the default and all entries |
| LoggerLevels.ValidLoggerNameIff | pobl/common/flogging/loggerlevels.go:98-107 | a logger name is valid exactly when it has allowed characters and periods only, and no period at an end or next to another |
| LoggerLevels.SegmentMeaning | pobl/common/flogging/loggerlevels.go:57-76 | a segment written as loggers, an equals sign and a level is read as these, and is valid exactly when the level and every name, less one trailing period, are |
| LoggerLevels.BareMeaning | pobl/common/flogging/loggerlevels.go:50-55 | a segment without an equals sign is the default level, and valid exactly when it is empty or names a level |
| LoggerLevels.SpecMeaning | pobl/common/flogging/loggerlevels.go:48-49 | segments joined by colons are read one by one |
| LoggerLevels.LoggerLevels.ActivateSpec | pobl/common/flogging/loggerlevels.go:42-96 | succeeds exactly when all segments are well formed; then default and entries are those of the last segments that give them, the cache is empty and the minimum is attained; otherwise nothing changes |
| LoggerLevels.LoggerLevels.CalculateLevel | pobl/common/flogging/loggerlevels.go:127-140 | the walk from period to period gives the effective level |
| LoggerLevels.EffectiveMeaning | pobl/common/flogging/loggerlevels.go:125-140 | the effective level is the exact-name entry, else the entry of the longest dotted ancestor, else the default |
| LoggerLevels.LoggerLevels.FillCache | pobl/common/flogging/loggerlevels.go:117-120 | computes and caches the effective level |
| LoggerLevels.LoggerLevels.Level | pobl/common/flogging/loggerlevels.go:112-123 | cached or not, the effective level under the current specification |
| LoggerLevels.EffectiveBound | pobl/common/flogging/loggerlevels.go:83-88 | a level at most the default and every entry is at most every effective level |
| LoggerLevels.LoggerLevels.Check | pobl/common/flogging/core.go:81-90 | an entry that is taken is admitted by the named logger's level; one that is not taken is not admitted by it at the fast test or at the lookup, whatever is activated between the two; with nothing between it is taken exactly when admitted |

## Left out

- Protobuf encoding and decoding, nil pointers and their errors, log output, metrics and the wording of errors, throughout.
- Curve, pairing and big-number arithmetic (of the inversion it is used that it does not return for zero, pobl/vendor/github.com/hyperledger/fabric-amcl/amcl/FP256BN/BIG.go:807-858), hash functions and encodings: arbitrary functions with discrete logarithms for group elements; random numbers are inputs.
- Probabilistic security of idemix: extraction starts from two accepted proofs, and how likely a forger is to have them is not modelled; epoch keys, revocation proofs other than the one for no revocation, pseudonym signatures and weak Boneh-Boyen signatures.
- The map from channel to cache around the discovery cache, and the arithmetic of its eviction ratio: the eviction amount is a parameter.
- Collisions of cache keys: different requests have different keys.
- policy.Evaluate around the compiled evaluator, and identity deserialisation: a principal is matched by a parameter.
- The 32-bit width of the counters in the signature policy evaluator.
- implicitmeta.go, FromString, principal sets and the other policy types.
- PolicyManager.NewManagerImpl: for names with slashes it is not said when construction fails, since implicit policies are compiled against an index that depends on the order of map iteration.
- PolicyManager.IndexAgreesWithWalk: for slash-free group names of which the first is not empty, and any relative id; otherwise the joined path is empty or absolute, and looked up differently.
- Tree vertices shared through pointers: trees are values, replace returns the changed copy, and recorded entries are kept as index sets that are resolved when used. The source only ever replaces in a fresh copy.
- SignaturePolicy.GreedyIsFormulaIff: for gates that ask for no rule, which accept anything and still consume signatures, only the sufficient direction (SignaturePolicy.AgreesIfOneSuffices) is proved.
- Vertices with a negative threshold, for which choose does not return.
- Thresholds in permuted trees: Clone drops them in copied vertices only, so trees are compared without them.
- ReorderBuffer.NextIsMissing: for fewer than 2^63 client messages, after which counts wrap around.
- The channel and the goroutines around the reorder buffer; a closed channel.
- Deliver.DeliverBlocks: begins where the session is created; the checks of the envelope before it, the position a cursor starts from and the ledger are inputs, and the cursor yields consecutive blocks.
- The logger's zero value before a first specification, whose cache is a nil map; Spec, which prints the specification.
- bccsp, msp, channelconfig, aclmgmt, the rest of handler.go, ledger, gossip, orderer and command lines: wiring, foreign libraries or I/O around the parts above.
