# Models of stoa-core and its vendored utilities

Dafny models of the dense parts of the Stoa packages, each with proofs of what the package promises. Effects are
values: a chain answer, a clock reading, a random salt or the answer of a callback is a parameter or an event, and an
exception is a constructor. Code that updates variables step by step is a class or a method with loops, proved against
specification functions; the properties are lemmas about those functions.

- `NodeFailover` has the module variables of the node failover as a class. `FailoverRuns` makes them part of a timed
  transition system with any number of wrapped calls, health probes, interval ticks and reconfigurations, interleaved at
  every `await`; every sequence of events is a run, and the theorems speak of all of them. `FailoverCalls`
  follows the calls, `FailoverEntry` the hosts that calls and requests are sent to, `FailoverProgress` shows that no run
  is stuck, `FailoverSwitches` when the active host changes, and `FailoverClient` is the race of a single attempt
  against its deadline.
- `Terms` is the symbolic world of the signing code: texts, JSON, hashes, keys and signatures are terms that are equal
  only if they were built alike. `Guards` and `SmartAccount` hold the threshold arithmetic, `GuardPredicates` what
  each named predicate demands, `UniversalSign` one signing pass and `SeedRouting` which secret signs in it,
  `PartialSig` the multi-party protocol, `PartyOutcome` the same from irregular starts and `PartialSigFormat` its
  envelope and reports, `CodexStrategy` the pipeline up to the signed transaction, `GuardCoverage` which guards that
  pipeline satisfies, `CodexOutcome` what is submitted in the end, and `CodexBuild` what the builder is offered and why
  a run is refused.
- `Base64Url`, `PactFormat`, `NumberReading`, `Decimals`, `Strings` and `Gas` are codecs, number printers and readers,
  and fixed-point prices.
- `Envelopes` is the pair of encryption formats with their migration, on texts of UTF-16 code units; `Utf` is the text
  encoding between them and the bytes that are encrypted, and `EnvelopeFormat` what they look like from outside.
- `VendorRewrite` and `VendorGraph` are the script that vendors modules and rewrites their requires.

Numbers are exact: percentages are rationals and gas is a real number, where the source computes in double-precision
floating point.

Where the code and its documentation differ, the model follows the code:

- A refused custom node configuration has already stopped the retry interval
  (`packages/stoa-core/src/network/nodeFailover.ts:185`), so the fallback can stay active with nothing to bring the
  primary back: `FailoverRuns.StrandedExactly`, `FailoverRuns.RefusalStrands`, `FailoverRuns.StrandedForever`.
- TIMEOUT is documented as both attempts having timed out, but a single attempt that starts on the fallback yields it
  too (`packages/stoa-core/src/network/failoverClient.ts:143-156`): `FailoverCalls.CallContract`.
- Both preset nodes have a gas limit of 2,000,000, whatever the header of `nodeFailover.ts` says.
- `analyzeGuard` does not remove repeated keys although `execute` says so
  (`packages/stoa-core/src/signing/codexStrategy.ts:171-172`): `CodexStrategy.RepeatedKeyFallsShort`.
- `execute` never tests whether a guard is satisfied: `GuardCoverage.AlwaysSatisfiedIff` says when all of them are,
  `GuardCoverage.PartlyHeldGuardPasses` shows one that is not.
- A pasted foreign key is compared with its public key only when it comes through the callback, not when it was
  pre-resolved: `CodexOutcome.GuardSignatureVerifiesIff`.
- Already filled slots are documented to stay intact (`packages/stoa-core/src/signing/partialSig.ts:137-141`), but they
  do only if the slot is found under its signer's key: `PartialSig.PassKeepsSlotIff`, `PartyOutcome.SlotSurvivesIff`,
  `PartialSig.UnkeyedSignatureLost`.
- Decryption does not always return what was encrypted: the text decoder drops a leading byte order mark, and lone
  surrogates are replaced; in passwords, zero characters at the end do not count either:
  `Envelopes.SmartRoundTripIff`, `Envelopes.LossyEnvelopes`.
- A call or probe that began under an earlier configuration can switch the present one:
  `FailoverSwitches.StaleCallSwitches`, `FailoverSwitches.LateProbeSwitches`.
- `smartDecrypt` warns that a legacy blob was decoded before it tries to decode it: `Envelopes.Crypto.SmartDecrypt`.
- The base64url decoder takes padding inside a string for a digit and skips other foreign characters, where RFC 4648
  asks for a rejection: `Base64Url.DepartsIff`, `Base64Url.LineBreakAfterPadding`.
- `formatDecimalForPact` accepts `"5."` and returns it as it is: `PactFormat.PrintedIsCloseAndStable`.
- `parseEU` does not invert `formatEU` on integers of seven or more digits: `PactFormat.IntegerRoundTripIff`.
- The require rewrite misdirects a request that ends like a directory when a module of the same name lies beside it, and
  one for a file without an extension that does: `VendorGraph.ResolutionPreservedIff`,
  `VendorGraph.DirectoryBesideModule`, `VendorGraph.FileWithoutExtension`.

## Model

| member | source | states |
|---|---|---|
| NodeFailover.Failover.SwitchToFallback | packages/stoa-core/src/network/nodeFailover.ts:51-56 | keeps the invariant; a no-op on the fallback, otherwise the fallback becomes active and exactly one new interval is live |
| NodeFailover.Failover.SwitchToPrimary | packages/stoa-core/src/network/nodeFailover.ts:59-69 | keeps the invariant; the primary is active and no interval is left |
| NodeFailover.Failover.StartRetryLoop | packages/stoa-core/src/network/nodeFailover.ts:71-80 | a second start changes nothing, so no handle is ever overwritten |
| NodeFailover.Failover.StopRetryLoop | packages/stoa-core/src/network/nodeFailover.ts:82-87 | clears the interval together with its handle |
| NodeFailover.Failover.CatchFirstAttempt | packages/stoa-core/src/network/nodeFailover.ts:127-144 | a network error of a call captured on the primary switches and names the fallback of that moment; everything else is rethrown |
| NodeFailover.Failover.SetNodeConfig | packages/stoa-core/src/network/nodeFailover.ts:180-232 | the new host pair, with a custom node as its own fallback; a refused configuration only stops the interval |
| NodeFailover.Failover.ResetNodeFailover | packages/stoa-core/src/network/nodeFailover.ts:243-250 | back to the initial hosts and limit with no interval |
| FailoverRuns.ActiveLimitOverRuns | packages/stoa-core/src/network/nodeFailover.ts:253-255 | in every reachable state the limit is that of the last accepted configuration or reset: the preset one, or for a custom node of another origin its own or the default |
| FailoverEntry.HostsOverRuns | packages/stoa-core/src/network/nodeFailover.ts:180-232 | in every reachable state the primary and the fallback are the two hosts that the last accepted configuration or reset chose, each named for each selection |
| NodeFailover.BaseUrlInjective | packages/stoa-core/src/network/nodeFailover.ts:90-97 | comparing base URLs is comparing hosts |
| FailoverRuns.HostAndTimerInvariant | packages/stoa-core/src/network/nodeFailover.ts:27-87 | in every reachable state the active host is one of the pair, at most one interval is live, and a live one means a fallback other than the primary |
| FailoverRuns.StrandStep | packages/stoa-core/src/network/nodeFailover.ts:180-232 | one step strands the node only by a refused custom configuration |
| FailoverRuns.StrandedExactly | packages/stoa-core/src/network/nodeFailover.ts:180-232 | the fallback lacks its interval if and only if a refusal happened on it and it has been active ever since |
| FailoverRuns.RetryIntervalExactlyOnFallback | packages/stoa-core/src/network/nodeFailover.ts:50-87 | without such a refusal, being on a distinct fallback and having a live interval coincide on every run |
| FailoverRuns.RefusalStrands | packages/stoa-core/src/network/nodeFailover.ts:185-207 | a concrete run into the stranded state |
| FailoverRuns.StrandedForever | packages/stoa-core/src/network/nodeFailover.ts:71-80 | from a stranded state with no retry probe in flight nothing but a new configuration or reset leads back to the primary |
| FailoverSwitches.PrimaryComesBackIff | packages/stoa-core/src/network/nodeFailover.ts:71-80 | without a new configuration or reset, a stranded node gets its primary back exactly when a retry probe that was already in flight answers healthy |
| FailoverSwitches.LiveIntervalRestores | packages/stoa-core/src/network/nodeFailover.ts:71-80 | in every reachable state with a live interval, one tick and one healthy answer make the primary active and end the interval |
| FailoverRuns.SelfContainedRun | packages/stoa-core/src/network/nodeFailover.ts:209-231 | a node that is its own fallback stays so, and everything sent goes to it |
| FailoverRuns.NoLeak | packages/stoa-core/src/network/nodeFailover.ts:209-231 | after an accepted custom configuration every attempt and probe, including retries of older calls, targets its origin until the next configuration |
| FailoverCalls.CallsOkRun | packages/stoa-core/src/network/failoverClient.ts:107-156 | the invariant of every call under every interleaving: attempts, outcome and time spent |
| FailoverCalls.CallContract | packages/stoa-core/src/network/nodeFailover.ts:118-145 | at most two attempts, the second exactly after a network error on the captured primary; the outcome is the last attempt's; TIMEOUT exactly for an AbortError |
| FailoverCalls.CallDeadlines | packages/stoa-core/src/network/failoverClient.ts:107-156 | with a valid limit: settled within twice the limit, once away from the primary; a controller is aborted only by its own deadline |
| FailoverCalls.RefusedCall | packages/stoa-core/src/network/failoverClient.ts:112-116 | with any limit that is not a finite positive number: no time passes, the validation error is the outcome, and nothing is ever sent |
| FailoverEntry.CallEntry | packages/stoa-core/src/network/nodeFailover.ts:118-126 | every call of every run was started by an event, captured the URLs of the hosts that were active and primary at that moment, and sent its first attempt to the active one |
| FailoverEntry.SendsExactly | packages/stoa-core/src/network/nodeFailover.ts:118-145 | what every event sends and where: a first attempt to the active host, a retry to the fallback, a probe to the primary, otherwise nothing |
| FailoverEntry.FallbackServes | packages/stoa-core/src/network/nodeFailover.ts:94-97 | as long as the node is on a distinct fallback and is not configured anew, every chain request goes to that fallback |
| FailoverEntry.StartedOnFallback | packages/stoa-core/src/network/nodeFailover.ts:134-143 | a call that starts on a distinct fallback makes a single attempt |
| FailoverEntry.StartupDecides | packages/stoa-core/src/network/nodeFailover.ts:288-292 | an unhealthy startup probe moves the node to its fallback with an interval; a healthy one changes nothing |
| FailoverProgress.Settle | packages/stoa-core/src/network/failoverClient.ts:107-135 | continuations, deadlines and waiting alone settle every timed call from any state whose calls are in order |
| FailoverProgress.NoTimelock | packages/stoa-core/src/network/failoverClient.ts:107-135 | from every reachable state, without any answer, all timed calls settle and any amount of time can pass; what is left over is untimed and can be answered |
| FailoverCalls.RetryTarget | packages/stoa-core/src/network/nodeFailover.ts:134-143 | the retry goes to the fallback configured when the continuation runs; otherwise nothing is sent and no host is switched |
| FailoverSwitches.SwitchesExactly | packages/stoa-core/src/network/nodeFailover.ts:51-87 | the exact condition for each kind of event to change the active host, and the host it changes to |
| FailoverSwitches.StaleCallSwitches | packages/stoa-core/src/network/nodeFailover.ts:134-138 | a call from before a reconfiguration that fails makes the failover leave the new primary, to which nothing was ever sent |
| FailoverSwitches.LateProbeSwitches | packages/stoa-core/src/network/nodeFailover.ts:73-77 | a healthy answer of the old primary leads back to a new primary that has failed |
| FailoverCalls.MempoolRun | packages/stoa-core/src/network/failoverClient.ts:281-295 | every request carries the payload its call was started with |
| FailoverCalls.MempoolDedup | packages/stoa-core/src/network/failoverClient.ts:281-295 | a mempool keyed by request key holds at most one entry per call, however often requests are delivered |
| FailoverEntry.DeliveryRecorded | packages/stoa-core/src/network/failoverClient.ts:281-295 | a delivered request puts the payload of its call into the mempool under its request key |
| FailoverClient.RunWithTimeout | packages/stoa-core/src/network/failoverClient.ts:107-135 | an invalid limit makes no controller; otherwise the reply, the time and the fate of a fresh controller are those of the race |
| FailoverClient.RaceIsRun | packages/stoa-core/src/network/failoverClient.ts:121-131 | every race can be run in the transition system, with its reply, its time and its controller, whatever other calls are in progress |
| FailoverClient.OnlyRacesRun | packages/stoa-core/src/network/failoverClient.ts:121-131 | in any state of any run, whatever ends an attempt is the outcome of a race |
| Guards.ComputeThreshold | packages/stoa-core/src/guard/guardUtils.ts:92-116 | between one and the number of keys for every known predicate; zero only without keys |
| Guards.PercentThresholdIsLeast | packages/stoa-core/src/guard/guardUtils.ts:106-107 | the threshold is the least number of signatures reaching the percentage |
| Guards.AnalyzeGuard | packages/stoa-core/src/guard/guardUtils.ts:183-235 | the partition of the keys, in order; signable is the number of held positions, satisfied means it reaches the threshold, needed is the exact shortfall |
| Guards.SatisfiedMonotone | packages/stoa-core/src/guard/guardUtils.ts:217-220 | holding more keys never unsatisfies a guard |
| GuardPredicates.Thresholds | packages/stoa-core/src/guard/guardUtils.ts:59-116 | the threshold of every predicate, with its names and numbers written out |
| GuardPredicates.AnySatisfied | packages/stoa-core/src/guard/guardUtils.ts:96 | keys-any is satisfied exactly when some key is held |
| GuardPredicates.AllSatisfied | packages/stoa-core/src/guard/guardUtils.ts:97-115 | keys-all, and any predicate that is not recognised, exactly when all keys are held |
| GuardPredicates.CountSatisfied | packages/stoa-core/src/guard/guardUtils.ts:98-104 | the counting predicates exactly when so many positions are held, or all if there are fewer |
| GuardPredicates.PercentSatisfied | packages/stoa-core/src/guard/guardUtils.ts:107 | the percentages exactly when so many percent of the positions are held |
| GuardPredicates.ToleranceSatisfied | packages/stoa-core/src/guard/guardUtils.ts:110-111 | all-but-one and all-but-two exactly when at most one or two positions are not held and at least one is |
| Guards.SelectCapsSigningKey | packages/stoa-core/src/guard/guardUtils.ts:310-337 | the choice in the set's insertion order |
| Guards.CapsKeyIsFree | packages/stoa-core/src/guard/guardUtils.ts:310-337 | the payment key if it is free, else the first free codex key; none exactly when none is free; impossible exactly when then the payment key is needed |
| SmartAccount.AnalyzeSmartAccountAuthPaths | packages/stoa-core/src/guard/smartAccountAuth.ts:297-345 | both indices are the first of their kind, and the branches say what the guards are |
| SmartAccount.StatesPartition | packages/stoa-core/src/guard/smartAccountAuth.ts:238-257 | every input is in exactly one of the four states, A exactly when some keyset can be signed, and B has a keyset to complete |
| SmartAccount.StateAMonotone | packages/stoa-core/src/guard/smartAccountAuth.ts:327-333 | holding more keys never leaves state A |
| SmartAccount.KindsExactly | packages/stoa-core/src/guard/smartAccountAuth.ts:98-138 | the kind of every guard by its fields, the more specific kind first |
| SmartAccount.KeysetReadBack | packages/stoa-core/src/guard/smartAccountAuth.ts:180-188 | a keyset as the chain spells it is read back with its predicate, keys and reference, and can be signed for exactly when it is satisfied |
| UniversalSign.AddAllIsMerged | packages/kadena-stoic-legacy/src/client/signing/utils/addSignatures.cjs:19-40 | adding signatures one by one merges them all at once: a filled entry found under its key wins, else the first signature listed |
| UniversalSign.SignatureOfKeypair | packages/stoa-core/src/signing/universalSign.ts:89-146 | the signature made for a declared key is that of its first direct keypair, or else of its first hd-wallet keypair |
| UniversalSign.AskedOnce | packages/stoa-core/src/signing/universalSign.ts:108-121 | the callback is asked once per distinct unhandled signer and for no one else |
| UniversalSign.AnswersUsed | packages/stoa-core/src/signing/universalSign.ts:108-121 | on success every answer derives to the key asked for |
| UniversalSign.SignaturesExact | packages/stoa-core/src/signing/universalSign.ts:89-146 | the signatures of a pass: one of every keypair that is declared, one per answer, and no others |
| UniversalSign.UniversalSignTransaction | packages/stoa-core/src/signing/universalSign.ts:76-149 | the routed, asked and slot-filled transaction, or the first failure, and whom the callback was asked for |
| SeedRouting.WalletSeedSigns | packages/stoa-core/src/signing/universalSign.ts:94-100 | a chainweaver or eckowallet keypair with an encrypted secret that its non-empty password opens fills its slot with the signature of that secret, whatever its plain key |
| SeedRouting.PlainSecretSigns | packages/stoa-core/src/signing/universalSign.ts:94-103 | a keypair of any other seed type, or without the secret or a password, fills it with the signature of its plain key |
| SeedRouting.WrongPasswordAborts | packages/stoa-core/src/signing/universalSign.ts:132-146 | a pass without a callback succeeds exactly when the passwords of all declared wallet keypairs open their secrets |
| SeedRouting.AskStopsIff | packages/stoa-core/src/signing/universalSign.ts:108-121 | asking stops exactly at a rejection, a malformed seed or the seed of another key, and the error says which |
| SeedRouting.UselessAnswerAborts | packages/stoa-core/src/signing/universalSign.ts:108-121 | such an answer for a declared signer without a keypair aborts the pass |
| PartialSig.SignersSplit | packages/stoa-core/src/signing/partialSig.ts:290-307 | filled and missing signers are together the declared signers |
| PartialSig.IsFullySigned | packages/stoa-core/src/signing/partialSig.ts:315-317 | every declared signer's slot is filled |
| PartialSigFormat.MissingInOrder | packages/stoa-core/src/signing/partialSig.ts:290-295 | the missing signers are those whose slot has no signature, in their declared order |
| PartialSigFormat.NobodyDeclared | packages/stoa-core/src/signing/partialSig.ts:261-276 | a command that is no JSON or has no signers declares nobody and counts as fully signed |
| PartialSigFormat.EmptyIsMissing | packages/stoa-core/src/signing/partialSig.ts:279-283 | an empty text is no signature: its signer is missing and fills the slot by signing |
| PartialSig.OnePass | packages/stoa-core/src/signing/partialSig.ts:151-156 | one party keeps command, hash and filled slots and fills exactly its own empty ones, validly, if every filled slot is found under its signer's key |
| PartialSig.PassKeepsSlotIff | packages/stoa-core/src/signing/partialSig.ts:137-156 | for any keypairs, a pass leaves a filled slot as it is exactly when none is declared, or it is the first entry under its signer's key, or none is filled there and the slot already is what the party's keypair for that key makes |
| PartialSig.HonestPassKeepsSlotIff | packages/stoa-core/src/signing/partialSig.ts:137-156 | for honest keypairs, the last case is that the signer signs again what the slot holds |
| PartialSig.UnkeyedSignatureLost | packages/stoa-core/src/signing/partialSig.ts:137-156 | a valid signature without its pubKey is lost when the other party signs |
| PartialSig.ProtocolOutcome | packages/stoa-core/src/signing/partialSig.ts:151-254 | from a transaction whose filled slots are found under their signers' keys, any sequence of signings and hand-offs succeeds, and its outcome is determined by the keys of all parties together |
| PartyOutcome.OutcomeFromAny | packages/stoa-core/src/signing/partialSig.ts:151-254 | the same from any transaction with a matching hash: nothing changes until a party holds a declared key, and then the outcome is that of its normal form |
| PartyOutcome.SlotSurvivesIff | packages/stoa-core/src/signing/partialSig.ts:137-254 | which filled entries survive a whole sequence of signings and hand-offs |
| PartyOutcome.ImportStartsProtocol | packages/stoa-core/src/signing/partialSig.ts:245-253 | whatever the import accepts can start the protocol |
| PartialSig.PartyOrderIrrelevant | packages/stoa-core/src/signing/partialSig.ts:137-156 | parties with the same keys altogether end alike in any order |
| PartialSig.FullySignedIffCovered | packages/stoa-core/src/signing/partialSig.ts:315-317 | fully signed at the end exactly when the parties' keys cover the unfilled declared signers |
| PartialSig.EverySignatureVerifies | packages/stoa-core/src/signing/partialSig.ts:351-417 | if all signatures verified at the start, all verify at the end |
| PartialSig.CreatedIsTidy | packages/kadena-stoic-legacy/src/client/utils/createTransaction.cjs:13-17 | a freshly created transaction is a valid start of the protocol |
| PartialSig.ImportOfExport | packages/stoa-core/src/signing/partialSig.ts:173-254 | import after export is the identity exactly when the hash matches, and names both hashes otherwise |
| PartialSigFormat.ExportIsEnvelope | packages/stoa-core/src/signing/partialSig.ts:173-184 | the format, version and fields of an export, whose entries carry what the slots hold |
| PartialSigFormat.EnvelopeImported | packages/stoa-core/src/signing/partialSig.ts:239-254 | any envelope is imported with its command, hash and signatures exactly when the hash is that of the command; otherwise both hashes are named |
| PartialSigFormat.OnlyEnvelopes | packages/stoa-core/src/signing/partialSig.ts:203-237 | nothing but an envelope of the one format and version gets as far as having its hash compared |
| PartialSigFormat.RefusalNamesFault | packages/stoa-core/src/signing/partialSig.ts:203-237 | a refusal names a part that is at fault |
| PartialSig.ProblemIffNotVerifying | packages/stoa-core/src/signing/partialSig.ts:373-414 | a filled slot is reported exactly when it holds no signature of the hash by its declared signer |
| PartialSig.ProblemIndicesExact | packages/stoa-core/src/signing/partialSig.ts:373-414 | the failing slots, each once, in index order |
| PartialSig.VerifyExistingSignatures | packages/stoa-core/src/signing/partialSig.ts:351-417 | one report per failing slot in index order, or one for a hash that does not decode |
| PartialSigFormat.ReasonsExactly | packages/stoa-core/src/signing/partialSig.ts:373-414 | the reason a signature is reported for |
| PartialSigFormat.KeyRefusedIff | packages/stoa-core/src/signing/partialSig.ts:394-406 | a declared key given as text is refused exactly when it does not start with 32 bytes in hexadecimal and nothing further |
| PartialSigFormat.HashRefusedIff | packages/stoa-core/src/signing/partialSig.ts:358-371 | a hash given as text is refused exactly for its length |
| PartialSig.RewrittenCommandIsReported | packages/stoa-core/src/signing/partialSig.ts:344-349 | a command replaced together with its hash passes the import, but every signature that was valid is reported |
| CodexStrategy.CheckSigma | packages/stoa-core/src/signing/codexStrategy.ts:110-140 | the first Sigma-marked guard out of reach, and where the mark was found |
| CodexStrategy.SigmaFiresIff | packages/stoa-core/src/signing/codexStrategy.ts:110-140 | refused exactly when a Sigma-marked guard has no codex key |
| CodexStrategy.CheckForeign | packages/stoa-core/src/signing/codexStrategy.ts:150-162 | the first guard key that is neither in the codex nor pre-resolved |
| CodexStrategy.CollectGuardKeypairs | packages/stoa-core/src/signing/codexStrategy.ts:165-198 | the nested loops collect the first occurrences of all needed keys with their keypairs, or stop at the first key that is not resolved |
| CodexStrategy.Sign | packages/stoa-core/src/signing/codexStrategy.ts:298-326 | signs with the first keypair of every key, gas payer first, and forwards the callback |
| CodexStrategy.OnePerKeyExact | packages/stoa-core/src/signing/codexStrategy.ts:305-311 | one keypair per key, all keys kept |
| CodexBuild.FirstKeypairSigns | packages/stoa-core/src/signing/codexStrategy.ts:305-311 | of several keypairs for one key the first signs |
| CodexBuild.DedupedOrder | packages/stoa-core/src/signing/codexStrategy.ts:169-198 | keys are collected in the order in which they first occur |
| CodexBuild.PayerSigns | packages/stoa-core/src/signing/codexStrategy.ts:262-271 | the payer's slot holds the signature of the payer's own keypair, even if an extra signer has the same key |
| CodexBuild.GuardRefusals | packages/stoa-core/src/signing/codexStrategy.ts:110-162 | the first two refusals, each exactly when its reason holds |
| CodexBuild.ForeignNamed | packages/stoa-core/src/signing/codexStrategy.ts:150-162 | the second names the first unreachable key of the first guard that has one |
| CodexBuild.KeypairErrors | packages/stoa-core/src/signing/codexStrategy.ts:179-197 | a guard key that is not resolved is named: the first one |
| CodexBuild.PayerRefusals | packages/stoa-core/src/signing/codexStrategy.ts:201-214 | once the guard keys are resolved, no payer is found exactly when guards need every codex key, and the payment key is blamed exactly when it is one of them |
| CodexBuild.MarkedIff | packages/stoa-core/src/signing/codexStrategy.ts:111-115 | a guard counts as a smart account exactly when its reference or a key holds the mark |
| CodexBuild.OfferedToBuild | packages/stoa-core/src/signing/codexStrategy.ts:222-260 | both builds are offered the collected guard keys in order, a codex key outside them as payer, and the price of the one clock reading; the first build gets 500,000 gas |
| CodexBuild.OutcomesExactly | packages/stoa-core/src/signing/codexStrategy.ts:239-290 | the outcome of a run is that of the first thing that fails, and a simulation that reports no gas counts as 500,000 |
| CodexStrategy.Execute | packages/stoa-core/src/signing/codexStrategy.ts:69-291 | the whole run: refusals in their order, both build contexts, keys asked for, what is submitted |
| CodexStrategy.TeamIsDisjoint | packages/stoa-core/src/signing/codexStrategy.ts:165-215 | guard keypairs are duplicate-free and are the pure signers; the gas payer is a codex key outside them |
| CodexStrategy.CodexKeysFirst | packages/stoa-core/src/signing/codexStrategy.ts:173-177 | a pre-resolved key signs for a guard only after all its codex keys |
| CodexStrategy.ThresholdReachedIff | packages/stoa-core/src/signing/codexStrategy.ts:169-198 | with overlapping guards, a guard with distinct keys gets its threshold of signers exactly when it is satisfied |
| GuardCoverage.ReachedInEveryListIff | packages/stoa-core/src/signing/codexStrategy.ts:169-198 | for any keyset: a guard is sure of its threshold of different signers, whatever guards it is listed with, exactly when it is satisfied and no held key's turn comes again before the threshold |
| GuardCoverage.ReachedInSomeListIff | packages/stoa-core/src/signing/codexStrategy.ts:169-198 | with the help of other guards it can get them exactly when that many different keys are held |
| CodexStrategy.RepeatedKeyFallsShort | packages/stoa-core/src/signing/codexStrategy.ts:171-177 | a repeated key satisfies the analysis but falls short of the threshold |
| CodexStrategy.EveryGuardSatisfied | packages/stoa-core/src/signing/codexStrategy.ts:150-162 | without the callback and without empty pre-resolved entries for foreign keys, whoever gets to build has only satisfied guards |
| GuardCoverage.AssemblesIff | packages/stoa-core/src/signing/codexStrategy.ts:110-215 | a request gets to build exactly when no smart-account guard is out of reach, all keys are reachable or there is a callback, and a codex key is left to pay |
| GuardCoverage.AlwaysSatisfiedIff | packages/stoa-core/src/signing/codexStrategy.ts:150-215 | all lists of guards that get to build have only satisfied guards if and only if the codex is empty, or there is no callback and no empty entry for a foreign key (but Sigma-marked ones beside a single codex key) |
| GuardCoverage.PartlyHeldGuardPasses | packages/stoa-core/src/signing/codexStrategy.ts:150-215 | a keys-all guard with one held and one foreign key gets to build unsatisfied, signed by the held key alone |
| CodexStrategy.UnsatisfiedGuardsPass | packages/stoa-core/src/signing/codexStrategy.ts:150-215 | guards none of whose keys are held pass, with the gas payer as the only signer |
| CodexOutcome.LimitWithinActiveNode | packages/stoa-core/src/signing/codexStrategy.ts:258-260 | after any run of the failover the second build's gas limit is at most that of the last configured node, and five percent above the measured gas unless that forbids it |
| CodexOutcome.SubmittedFullySigned | packages/stoa-core/src/signing/codexStrategy.ts:262-271 | fully signed whenever the callback exists or only offered keys are declared, and for an unsigned build only then |
| CodexOutcome.AskedExactlyOnce | packages/stoa-core/src/signing/codexStrategy.ts:313-324 | a submission has asked exactly the distinct signers nobody offered, once each, and each answer derives to its key |
| CodexOutcome.GuardSignatureVerifiesIff | packages/stoa-core/src/signing/codexStrategy.ts:190-196 | a guard key's signature verifies exactly when its keypair is honest; for a pre-resolved key, when the pasted key is its key |
| CodexOutcome.ThresholdEndorsed | packages/stoa-core/src/signing/codexStrategy.ts:164-271 | from thresholds to slots: if an unsigned build declares the guard signers and their keypairs are honest, every satisfied guard with distinct keys has its threshold of verifying signatures in the submitted transaction |
| CodexBuild.OfferFullySigned | packages/stoa-core/src/signing/codexStrategy.ts:222-271 | a builder that declares just what it is offered is submitted fully signed with nobody asked |
| CodexBuild.OfferEndorsed | packages/stoa-core/src/signing/codexStrategy.ts:164-271 | for such a builder, with honest keypairs, every satisfied guard with distinct keys has its threshold of verifying signatures, with no assumption on what is declared |
| Base64Url.Base64UrlDecode | packages/kadena-stoic-legacy/src/cryptography-utils/base64UrlDecode.cjs:12-38 | the one-loop decoder with its never-reset counter computes the phase-by-phase decoding |
| Base64Url.EmitIsOctets | packages/kadena-stoic-legacy/src/cryptography-utils/base64UrlDecode.cjs:25-33 | which is section 5 of RFC 4648, quantum by quantum |
| Base64Url.DecodeText | packages/kadena-stoic-legacy/src/cryptography-utils/base64UrlDecode.cjs:12-38 | for any sextets and any padding: rejected exactly at length 1 modulo 4, otherwise their octets |
| Base64Url.DecodeEncoded | packages/kadena-stoic-legacy/src/cryptography-utils/base64UrlDecode.cjs:12-38 | decoding the encoding of any bytes, padded or not, returns them |
| Base64Url.DecodesAlphabetStrings | packages/kadena-stoic-legacy/src/cryptography-utils/base64UrlDecode.cjs:13-16 | n characters give floor(3n/4) bytes unless n is 1 modulo 4 |
| Base64Url.ThreeBytes | packages/kadena-stoic-legacy/src/cryptography-utils/base64UrlDecode.cjs:25-33 | three bytes are four characters of the alphabet, the high bits first |
| Base64Url.AlphabetExactly | packages/kadena-stoic-legacy/src/cryptography-utils/base64UrlDecode.cjs:5 | the alphabet, and the padding as its last character |
| Base64Url.DecoderExact | packages/kadena-stoic-legacy/src/cryptography-utils/base64UrlDecode.cjs:12-38 | for every string: rejected exactly by its length without the padding at the end, and otherwise the quanta of its table indices modulo 256, where padding inside carries |
| Base64Url.DecoderKeepsAlphabet | packages/kadena-stoic-legacy/src/cryptography-utils/base64UrlDecode.cjs:12-38 | without padding inside, the octets of the characters of the alphabet |
| Base64Url.OthersIgnored | packages/kadena-stoic-legacy/src/cryptography-utils/base64UrlDecode.cjs:33-36 | a character outside the table does not change the decoded bytes, as long as no padding comes to stand inside and the length is accepted |
| Base64Url.DepartsIff | packages/kadena-stoic-legacy/src/cryptography-utils/base64UrlDecode.cjs:12-16 | it departs from a decoder that rejects characters outside the alphabet exactly on accepted lengths with such a character, padding inside included |
| Base64Url.LineBreakAfterPadding | packages/kadena-stoic-legacy/src/cryptography-utils/base64UrlDecode.cjs:12-16 | a line break after the padding adds two bytes to what is decoded |
| Base64Url.InteriorPaddingIsADigit | packages/kadena-stoic-legacy/src/cryptography-utils/base64UrlDecode.cjs:5 | an instance of padding inside counting as a 65th digit |
| PactFormat.FormatsWhatIsSpelled | packages/stoa-core/src/pact/format.ts:95-125 | accepts exactly the digit strings with at most one dot or lone comma, and prints exactly what they spell |
| PactFormat.PrintedIsCloseAndStable | packages/stoa-core/src/pact/format.ts:112-124 | digits, a dot, at most maxDecimals digits; out <= in < out + 10^-maxDecimals; idempotent |
| PactFormat.GroupedIsThousands | packages/stoa-core/src/pact/format.ts:231 | grouping is the split into a first group of one to three digits and groups of three |
| PactFormat.RemoveGrouped | packages/stoa-core/src/pact/format.ts:231 | deleting the dots restores the digits |
| PactFormat.FractionRoundTrip | packages/stoa-core/src/pact/format.ts:188-235 | a numeral with a fraction is read back exactly |
| PactFormat.IntegerReadBack | packages/stoa-core/src/pact/format.ts:195-199 | from seven digits on, only the first group and the second as a fraction are read |
| PactFormat.IntegerRoundTripIff | packages/stoa-core/src/pact/format.ts:188-235 | an integer is read back exactly when it has at most six digits or is zero |
| NumberReading.SpacesIgnored | packages/stoa-core/src/pact/format.ts:95-102 | whitespace around an amount makes no difference to the decimal formatter or to the reader |
| NumberReading.NothingIsZero | packages/stoa-core/src/pact/format.ts:189-191 | nothing, whitespace and the placeholders read as zero |
| NumberReading.SignRead | packages/stoa-core/src/pact/format.ts:195-199 | a sign in front of a digit is read |
| NumberReading.ExponentRead | packages/stoa-core/src/pact/format.ts:195-199 | a complete exponent moves the decimal point |
| NumberReading.PlainDecimalRead | packages/stoa-core/src/pact/format.ts:195-199 | a dot before exactly three digits groups thousands, before any other number of digits it is a decimal point |
| Gas.CalculateAutoGasLimit | packages/stoa-core/src/gas/gasUtils.ts:144-163 | zero for what is not a positive number; otherwise never above the node's limit, and below it at least 1,000 and 1.05 times the simulation |
| Gas.LimitIsLeastReserve | packages/stoa-core/src/gas/gasUtils.ts:144-163 | the limit is the least that reserves what the band of the simulation asks for, or the limit of the node |
| Gas.LimitAlmostMonotone | packages/stoa-core/src/gas/gasUtils.ts:144-163 | for all real simulations: nondecreasing except across 1,000 and 500,000, with drops of at most 350 and 15,000 |
| Gas.WholeGasDrops | packages/stoa-core/src/gas/gasUtils.ts:144-163 | between whole amounts the drops are at most 349 and 14,999, and both occur |
| Gas.FloorCountsTicks | packages/stoa-core/src/gas/yinEngine.ts:37-41 | one more at every tick, the cap exactly from tick 390,000 on |
| Gas.FloorInNumbers | packages/stoa-core/src/gas/yinEngine.ts:19-41 | the floor in numbers: 10,000 at the genesis second, one more every 10,800 seconds, and 400,000 in the end |
| Gas.UnderpricedIffTickBetween | packages/stoa-core/src/gas/yinEngine.ts:58-75 | an older price is too low exactly when a tick below the cap lies in between |
| Gas.PriceStringExact | packages/stoa-core/src/gas/yinEngine.ts:54-56 | the padded string denotes exactly the amount over 10^12 |
| Gas.DisplayAgrees | packages/stoa-core/src/gas/gasUtils.ts:47-57 | the stripped display string denotes the same number |
| Decimals.PaddedFraction | packages/stoa-core/src/gas/yinEngine.ts:55 | padding to k digits denotes the number over ten to the k |
| Envelopes.Crypto.EmitV1WarningOnce | packages/stoa-core/src/crypto/v2.ts:83-94 | warns only while the flag is down, and raises it |
| Envelopes.Crypto.ResetV1WarningEmitted | packages/stoa-core/src/crypto/v2.ts:102-104 | lowers the flag, and is the reset of the runs |
| Envelopes.Crypto.DecryptString | packages/stoa-core/src/crypto/v1.ts:86-157 | opens with the old parameters, nonce and salt cut to size, at the cost of 10,000 iterations |
| Envelopes.Crypto.DecryptStringV2 | packages/stoa-core/src/crypto/v2.ts:168-269 | opens in the declared format and warns only after a successful fallback |
| Envelopes.Crypto.DecryptStringV2WithDetails | packages/stoa-core/src/crypto/v2.ts:290-304 | the same result, with the legacy flag telling the branch taken |
| Envelopes.Crypto.SmartDecrypt | packages/stoa-core/src/crypto/v2.ts:370-382 | one attempt in the declared format; what it costs depends on the envelope alone, never on the password; warns before a legacy attempt |
| Envelopes.Crypto.SmartDecryptWithDetails | packages/stoa-core/src/crypto/v2.ts:395-402 | the same result, with the legacy flag telling the branch taken |
| Utf.DecodeOfEncoded | packages/stoa-core/src/crypto/v2.ts:169-170 | decoding the UTF-8 encoding of scalar values gives them back |
| Utf.DifferentKeys | packages/stoa-core/src/crypto/v2.ts:130-137 | passwords with paired surrogates and no zero character at the end make different keys if they differ |
| Utf.RereadIff | packages/stoa-core/src/crypto/v1.ts:30-31 | a text survives encoding and decoding exactly when its surrogates are paired and it does not start with a byte order mark |
| Utf.SameEncodingIff | packages/stoa-core/src/crypto/v1.ts:121-125 | texts are encoded alike exactly when they differ at most in which lone surrogates they hold |
| Envelopes.SmartRoundTrip | packages/stoa-core/src/crypto/v2.ts:343-382 | decrypting gives what text encoding leaves of the plaintext, for every text, password and schema version; another password is refused exactly if it makes another key |
| Envelopes.SmartRoundTripIff | packages/stoa-core/src/crypto/v2.ts:343-382 | it is the plaintext exactly when that has paired surrogates and no leading byte order mark; no other password opens it, among those with paired surrogates and no zero character at the end |
| EnvelopeFormat.SchemaDecides | packages/stoa-core/src/crypto/v2.ts:328-352 | a schema version that starts with a numeral writes the new format exactly if the number is one or more; an absent one writes the old |
| EnvelopeFormat.WrittenFields | packages/stoa-core/src/crypto/v2.ts:123-146 | the fields of an envelope, and the strength of the key in either format |
| EnvelopeFormat.WrittenCost | packages/stoa-core/src/crypto/v2.ts:123-146 | opening what was written costs the iterations of its format |
| EnvelopeFormat.FlagTellsFormat | packages/stoa-core/src/crypto/v2.ts:395-402 | the flag says legacy exactly for what was written without an upgraded schema |
| EnvelopeFormat.WhoWarns | packages/stoa-core/src/crypto/v2.ts:168-269 | opening an old envelope warns, in one reader with any password, in the other only with the right one; opening a new one never does |
| EnvelopeFormat.KnownEncodings | packages/stoa-core/src/crypto/v2.ts:124-126 | a text of one, two, three and four bytes in UTF-8 |
| Envelopes.LossyEnvelopes | packages/stoa-core/src/crypto/v2.ts:343-382 | a text that comes back shorter, and passwords that open what another one closed |
| Envelopes.PooledBuffers | packages/stoa-core/src/crypto/v2.ts:226-241 | over-long nonce and salt are tolerated in the old format, an over-long nonce is not in the new |
| Envelopes.AtMostOnePerReset | packages/stoa-core/src/crypto/v2.ts:76-104 | over any run at most one warning per reset, and one |
| Envelopes.OneWarningPerStretch | packages/stoa-core/src/crypto/v2.ts:76-104 | without a reset, one warning exactly if something legacy is met while the flag is down |
| Envelopes.UpgradeOutcome | packages/stoa-core/src/crypto/v2.ts:39-44 | upgrading in any order, any number of times: what every entry opens to and its format, after every sequence of steps |
| Envelopes.UpgradeKeepsEntryIff | packages/stoa-core/src/crypto/v2.ts:39-44 | an upgraded entry opens to the same text exactly when that does not start with a byte order mark |
| Envelopes.UpgradeComplete | packages/stoa-core/src/crypto/v2.ts:315-318 | every entry still opens, the old reader opens nothing in the new format, and the codex ends all in the new format exactly when every old entry was upgraded and there is one |
| VendorRewrite.CopyAndRewriteCjs | packages/kadena-stoic-legacy/scripts/copy-vendor-files.cjs:41-53 | one pass computes the rewrite, and reports whether any request changed |
| VendorRewrite.RewriteExact | packages/kadena-stoic-legacy/scripts/copy-vendor-files.cjs:44-49 | renames the requests one by one, touches nothing else, and is idempotent |
| VendorRewrite.MatchesExactly | packages/kadena-stoic-legacy/scripts/copy-vendor-files.cjs:44 | what is captured at the start of a text, and that nothing else is |
| VendorRewrite.LeftAloneIff | packages/kadena-stoic-legacy/scripts/copy-vendor-files.cjs:25-39 | a request is left alone exactly when it is of a package, has one of the five extensions, or denotes neither a module nor an index |
| VendorRewrite.TargetExactly | packages/kadena-stoic-legacy/scripts/copy-vendor-files.cjs:30-37 | what a rewritten request is: the module first, then the index, with or without a slash at the end |
| VendorGraph.ResolutionPreservedIff | packages/kadena-stoic-legacy/scripts/copy-vendor-files.cjs:25-39 | the rewritten request names, without search, the copy of the file the bare one denoted, exactly unless it is one of two misdirected kinds |
| VendorGraph.DirectoryBesideModule | packages/kadena-stoic-legacy/scripts/copy-vendor-files.cjs:30-37 | a disk and a request of the first misdirected kind |
| VendorGraph.FileWithoutExtension | packages/kadena-stoic-legacy/scripts/copy-vendor-files.cjs:30 | a disk and a request of the second |
| VendorGraph.Walk | packages/kadena-stoic-legacy/scripts/copy-vendor-files.cjs:55-64 | every vendored file below the directory, each once |
| VendorGraph.CopiedIff | packages/kadena-stoic-legacy/scripts/copy-vendor-files.cjs:21-64 | copied are the files of the four subtrees with the two kinds of names |
| VendorGraph.CopyExactly | packages/kadena-stoic-legacy/scripts/copy-vendor-files.cjs:79-86 | only modules are rewritten |
| VendorGraph.CopyVendorFiles | packages/kadena-stoic-legacy/scripts/copy-vendor-files.cjs:66-92 | the distribution holds exactly the vendored files of the four subtrees, modules rewritten |
| VendorGraph.EdgesPreserved | packages/kadena-stoic-legacy/scripts/copy-vendor-files.cjs:66-92 | if the requests stay in the tree, are not misdirected, and those with an extension name their file, the distribution has exactly the requires of the sources between copied modules |
| VendorGraph.WalksPreserved | packages/kadena-stoic-legacy/scripts/copy-vendor-files.cjs:66-92 | if moreover copied modules require only copied modules, the same modules are reachable from any entry, by the same chains |

## Left out

- Floating point: thresholds and gas limits are exact, so where rounding up meets a binary fraction the source can be off by one (a simulation of 50,000 gets 60,001 there and 60,000 here).
- Ticks and probes may happen at any time in the runs: the 30-second interval and the 3-second probe deadline are over-approximated, and the order of continuations queued at the same moment is arbitrary.
- Timers: delays beyond the range of the platform's timer or below one millisecond, which it clamps.
- URL parsing and error messages: a custom URL is what the parser makes of it, an error the two facts the failover looks at.
- The precedence of per-call, per-client and default timeouts, `pollOne` not forwarding its signal, and the URL suffix of a chain.
- Cryptography: hashing, key derivation, AES-GCM and Ed25519 are symbolic (a password longer than the block of the hash is never taken for its own hash), and key material of a wrong length, which the libraries refuse by throwing, is only modelled where the verification report distinguishes it.
- Commands and keys are symbolic texts: only the plaintexts and passwords of envelopes are modelled as code units.
- Texts that are JSON only by accident: a literal text never parses, and a literal text in an envelope field never decodes from base64.
- Envelope fields that are not strings, which the source coerces to text before decoding, are excluded by `Typed`.
- Signers without a string `pubKey`, which shift the indices of the tolerant reader, are excluded by `Covered`; prototype names as predicates and fields that are present but undefined are not modelled.
- `build` and the resolver of the signing pipeline are functions: a builder that throws, or one that answers differently the second time, is not modelled.
- The signing pipeline's calls to the chain are reduced to their outcome; their deadline is that of `RunWithTimeout`.
- `formatEU` and `parseEU`: annotations, currency suffixes and number inputs of the printer, and the word Infinity of the reader.
- `formatIntegerForPact`, `mayComeWithDeimal`, `predicateLabel`, gas status, fees, colours and locale output: single-branch helpers.
- `normalizeKeysetRef`, the payment key classification and the codex set builder: single-branch helpers.
- Requires written with single quotes or as a bare `"."` or `".."`, which the rewrite does not look at, and package files consulted by the module lookup.
- Counting and logging in the vendoring script; an unreadable subtree.
- The wallet builder, account generation, storage, logger and reader seams, barrels and documentation checks: thin wrappers.
