# Kessa, verified

Kessa lets an organisation delegate narrow authority to software agents. A proxy (the enforcement point)
decides each request, seals the decision into a hash-linked log and only then answers; an independent
verifier later re-derives every decision from an export of that log. This project models both programs,
the protocol between them and the artifacts they exchange, and proves that they agree, that the log cannot
silently change, and that authority only ever narrows.

## How the model is laid out

| module | what it holds |
|---|---|
| `Util`, `Text`, `Scalar`, `Types` | optional values, comma-separated sets, the mixed instant/number order, actions and decisions |
| `Macaroons`, `Chains`, `Issuing` | attenuation, delegation chains, the issuer that mints them |
| `Policies`, `Rego` | the ordered classifier, and its translation to an unordered rule module |
| `StatusLists` | revocation bits changed in place |
| `Artifacts`, `Wire` | signed messages as symbols, and the same messages as bytes |
| `Audit`, `Exports`, `Enforcement` | the log, the export and its verifier, the write-ahead log and the proxy |
| `Agreement` | one entry: what the proxy allowed against what the verifier says |
| `Runs`, `Guarantees`, `Handling` | every run of an enforcement point with crashes and restarts, what holds of all of them, and why a call on the proxy object is such a run |
| `Soundness` | what a passing export establishes, whoever made it |
| `Tampering` | the write-ahead log when someone else rewrites the file |
| `Witnesses` | inputs the code can receive on which it parts from what a reader may expect |

Methods carry the loops, early exits and in-place updates of the original, each proved against a
specification function or predicate; lemmas then prove what those specifications mean.

**Cryptography is symbolic.** A signature names the key and the message it was made with and verifies under
exactly those; a hash or content address is the value it was taken of; a P-256 signature has many forms, so
signatures carry a `variant` that no hash covers. `Wire` proves the byte layouts one-to-one, so that a
signature over bytes is a signature over one symbolic message (`SymbolicMessagesExact`).

**What is outside comes in as a value.** `World` holds the two text parsers, DID resolution, the published
status lists and any plugged-in evaluator; it does not change during a run. Clock readings, signer failures
and the fate of each disk write are parameters. The enforcement point is a machine whose steps are submit,
take the lock and seal, write, commit, record one credential, return, crash and restart. Requests may be
submitted at any time; a crash may come between any two steps, and a restart may bring another configuration.

## Where the code parts from what a reader may expect

Each item names an input the code can receive and the theorem that says exactly when it happens.

* Comments call narrowing strict. A caveat equal to an existing one is accepted (`EqualCaveatAccepted`), unless it
  is an ordering bound that parses to NaN, which validates and can be added once but never twice
  (`NaNCaveatRefusedTwice`). `NarrowsItselfIff` and `RepeatAdmittedIff` say so of every caveat.
* Narrowing fails closed. Between bounds, and between the operators it compares, it is containment exactly
  (`BoundsNarrowIff`, `NarrowsIffContained`); every other pair is refused even where it is contained
  (`ContainedButRefused`, `UndecidedRefused`).
* "The last caveat on a field decides" is true of what `Mint` and `Attenuate` build (`LastCaveatDecides`). Chain
  verification accepts a root for which it is false (`LastCaveatCanMislead`). For any caveats it holds on every context
  if and only if some last caveat is satisfied by nothing or each admits nothing an earlier one on its field refuses
  (`LastDecidesIff`), and in a verified chain only the root's own caveats can break that (`LastCaveatDecidesInChain`).
* The proxy records an approval on a routine action without checking it, and the verifier checks any approval on an
  allowed entry (`JunkApprovalRunFails`). Recovery resumes a log written under no policy, such as another evaluator's,
  under a policy, and the verifier then fails its allows (`PluginLogResumedFails`), which is what the comment on the
  guard says it prevents. `CompletenessIff` says that nothing else makes an export of any run fail.
* With no status source configured the proxy refuses every consequential action, while the verifier passes one whose
  chain bears no status (`ConsequentialPassesWithoutSource`, `VerifierPassMeansProxyAllows`, `NoStatusSourceDiverges`).
* A look-up that fails in the middle of a sweep leaves the evaluator's own count on the denial, 0 from the shipped
  classifier, although hops had answered (`FailedLookupForgetsCount`). The recorded count is the number of hops that
  answered if and only if no look-up failed or that number is the evaluator's own (`CountTrueIff`,
  `ShippedCountTrueIff`).
* A failed append may leave its record in the file; one more append then makes the file unrecoverable
  (`LeftoverRunReached`, `LeftoverRecordRefuses`). Recovery under the same key and policy succeeds exactly when no line
  is torn and every record is at its own position (`RecoversIff`).
* Comments say that a truncated or tampered write-ahead log is refused. Cut at a record boundary it never is, and a
  returned decision is lost (`TruncationLosesDecision`): a file made of the same entries is accepted if and only if they
  are a prefix of the original's (`SelectionRecoversIff`), and a returned decision survives if and only if its position
  is below the cut (`TruncatedRestart`). No hash covers the evidence in the file, so a file stripped of it is accepted
  too and its exports fail (`StrippedEvidenceFails`); `TamperedExportIff` says exactly when an export passes after any
  rewriting. What no rewriting can undo is attribution and single use within the log (`TamperedStaysAttributable`,
  `TamperedStaysSingleUse`).
* The verifier asks a denial for its chain only. A passing export may hold a denial that no chain attributes
  (`DenialWithoutProofPasses`); an entry of a passing export is attributable if and only if its proof of possession
  verifies (`PassingAttributableIff`), which for allows is always (`PassingAllowsJustified`).
* A caveat whose field holds the separator byte shares its canonical bytes with another (`SeparatorInFieldCollides`).
  Two caveats do so if and only if they are equal or one is the other with the separators moved (`CanonicalEqualIff`).
* An identifier that holds a NUL makes two proofs of possession share their bytes (`NulInIdentifierCollides`). They do
  so if and only if action and slot agree and subject, identifier and nonce run together are the same (`PopEncodesIff`).
  The subject is no different (`NulInSubjectCollides`); the previous hash is, because its length is fixed
  (`UnfixedHashCollides` shows why it has to be).

One limit the source states itself: position binding does not tell two logs apart at their first slot
(internal/audit/audit.go:331-334). `AcceptedAgainIff` says exactly when a request that made an entry is sealed again in
any log of any run: if and only if that log's tip is the one the entry was made at, and then the two logs agree on
everything before it. With a write-ahead log that never comes about (`NeverAgainWithLog`); without one a restart brings
it about for the first slot, and one approval then carries a consequential allow twice (`OneApprovalTwoLogs`).

## Model

| member | source | states |
|---|---|---|
| Guarantees.CompletenessIff | internal/enforce/enforce.go:388-491 | After every run, crashes, recoveries and changes of evaluator included, an export passes the independent verifier if and only if each allowed entry names a policy and its approval is absent or valid; of consequential allows the second always holds. |
| Guarantees.Completeness | internal/export/verify.go:114-206 | If every configuration runs the shipped classifier and every admitted request's approval on a routine action is absent or valid, the report the verifier makes of any export of any run is a clean pass. |
| Guarantees.EveryEntryAttributable | internal/enforce/enforce.go:342-491 | In every reachable state each entry, denials included, sits at its own index on the tip before it and has a verified chain, each credential signed by its issuer's resolved key and bound to its subject's, and a proof of possession signed by its last principal's resolved key for that position; each allow, under whichever evaluator the run configured, has that evaluator's permission with the same classification, rule and version, satisfied caveats and, if consequential, for each status-bearing hop a list signed by its authority without its index, the true hop count and its approver's signature for that position. |
| Guarantees.EvidenceBounded | internal/enforce/enforce.go:309-335 | No entry of a reachable log records a nonce over 128 bytes or a signature over 512. |
| Artifacts.AuthorityContextMeans | internal/enforce/enforce.go:721-728 | In the context caveats are checked against, the holder field is the credential's own key whatever the action says, the reserved names are the action's own and every other field its attribute. |
| Guarantees.OneEntryPerTip | internal/enforce/enforce.go:388-437 | Two entries of a reachable log never come from one request, nor from two requests bound to one tip. |
| Guarantees.SingleUse | internal/audit/audit.go:335-381 | In every reachable log no two proofs of possession were made over one message and no two consequential allows rest on approvals over one message, in whatever form the signatures are encoded. |
| Guarantees.LogOnlyGrows | internal/enforce/enforce.go:211-240 | With a write-ahead log nothing ever leaves the log or moves in it, across crashes and restarts. |
| Guarantees.AcceptedAgainIff | internal/audit/audit.go:326-334 | For any two reachable logs, the request behind entry i of one is sealed in the other if and only if the other's tip is the one entry i was made at; the logs then agree on everything hashed before i, and under the same evaluator the whole record but its time is repeated. |
| Guarantees.NeverAgainWithLog | internal/audit/audit.go:193-208 | With a write-ahead log a request whose entry is in the log is never sealed again, across every crash and restart. |
| Guarantees.FreshLogAcceptsAgain | internal/audit/audit.go:331-334 | Without one, after any restart, a request that made the first entry of an earlier log is sealed again, and under the same evaluator with the same decision on the same approval. |
| Witnesses.OneApprovalTwoLogs | internal/audit/audit.go:331-334 | A run without a write-ahead log in which one approval carries a consequential allow before a restart and again after it. |
| Guarantees.LogBeforeAct | internal/enforce/enforce.go:464-490 | Whenever a restart succeeds after a crash at any point: every decision ever returned is in the recovered log at its own position, that log is the committed one plus at most one entry, it verifies, the evidence holds every credential any entry names, and its policy continues. |
| Guarantees.CleanDiskAlwaysRecovers | internal/enforce/wal.go:76-128 | If failed appends leave no bytes, recovery under the same key and policy always succeeds. |
| Guarantees.RecoversIff | internal/enforce/wal.go:109-128 | Whatever failed appends left behind, recovery under the same key and policy succeeds if and only if no line is torn and every record sits at its own position. |
| Guarantees.LeftoverRecordRefuses | internal/enforce/wal.go:119-126 | A file more than one record ahead of the committed log is refused by every later recovery under every configuration. |
| Witnesses.LeftoverRunReached | internal/enforce/wal.go:119-126 | A run that comes to such a file: two failed appends that left their records. |
| Tampering.SelectionRecoversIff | internal/audit/audit.go:198-208 | A file made of an accepted file's entries, with records dropped, repeated or reordered, is accepted if and only if its entries are a prefix of the original's, so truncation at a record boundary is not refused. |
| Tampering.TruncatedRestart | internal/enforce/enforce.go:190-240 | After any run, with the file cut to k records, recovery still succeeds, and a returned decision is in the recovered log if and only if its position is below k. |
| Tampering.CoreRun | internal/enforce/enforce.go:190-240 | Every run in which the file may be rewritten at any time by someone without the signers' keys keeps the log chained, made of contents the enforcement point sealed, and under a policy that continues. |
| Tampering.TamperedStaysAttributable | internal/enforce/enforce.go:190-240 | In every such run each entry is at its own position and attributable, and each allow rests on what a configured evaluator derived, the caveats, the status lists and an approval. |
| Tampering.TamperedStaysSingleUse | internal/audit/audit.go:335-381 | In every such run no proof of possession and no approval of a consequential allow counts twice in a log. |
| Tampering.TamperedExportIff | internal/enforce/enforce.go:190-240 | After any such run an export passes if and only if every credential an entry names is on record with a valid issuance proof, each allow names a policy, and its approval is absent or valid. |
| Witnesses.TruncationLosesDecision | internal/audit/audit.go:198-208 | A durable run that returned an allow, whose file is cut to nothing and recovered to an empty log. |
| Witnesses.StrippedEvidenceFails | internal/enforce/enforce.go:190-194 | A file with its entries intact and its evidence dropped that recovery accepts; every export of the recovered log fails. |
| Handling.CallIsRun | internal/enforce/enforce.go:342-379 | One uninterrupted call changes the proxy exactly as a run of the machine's steps changes the node beside it, and returns a decision exactly when the machine does. |
| Handling.CallsAreRuns | internal/enforce/enforce.go:342-491 | Any sequence of calls is a run, so the guarantees about runs are guarantees about calls. |
| Handling.ExportAfterCalls | internal/enforce/enforce.go:846-850 | The export after any sequence of calls on a fresh proxy passes if and only if each allow names a policy and its approval is absent or valid. |
| Witnesses.JunkApprovalRunFails | internal/enforce/enforce.go:459-462 | A run that allows and logs a routine action with an approval that is no approval; every export of it fails. |
| Witnesses.PluginLogResumedFails | internal/enforce/enforce.go:190-240 | A log of another evaluator's allows that recovery resumes under a policy; every export of it fails. |
| Guarantees.OriginVerdict | internal/export/verify.go:209-435 | The verifier fails an entry with an origin exactly when its evidence is not kept or it is an allow under no policy or with an unsound approval. |
| Guarantees.EvaluatorsConfigured | internal/enforce/enforce.go:136-188 | The evaluators a run's entries rest on are those its configurations gave it, and no others. |
| Soundness.PassingAllowsJustified | internal/export/verify.go:273-435 | Every allow of a passing export, whoever made it, is attributable and justified under the policy the export carries. |
| Soundness.PassingAttributableIff | internal/export/verify.go:271-277 | Every entry of a passing export has a verified chain, and it is attributable by that chain if and only if its recorded proof of possession verifies at its position. |
| Soundness.NoOtherChainAttributes | internal/export/verify.go:234-269 | No other chain attributes an entry of a passing export that its own evidence does not. |
| Witnesses.DenialWithoutProofPasses | internal/export/verify.go:271-277 | A passing export whose one denial no chain attributes. |
| Runs.StepKeeps | internal/enforce/enforce.go:388-491 | Every step of the machine keeps the invariant: sealed entries have origins, memory is chained and evidenced, the file is the committed log plus at most one record or is unrecoverable, and returned decisions are in the log. |
| Runs.RunKeeps | internal/enforce/enforce.go:342-491 | Every run keeps that invariant, and with a write-ahead log the committed log only grows. |
| Runs.EnterReady | internal/enforce/enforce.go:388-462 | What is sealed inside the lock records the request at the current tip, keeps the log chained, and brings every credential it names with a valid issuance proof. |
| Runs.WriteKeepsFile | internal/enforce/wal.go:109-128 | Writing the record in hand extends the file by one sound record, or spoils it for good if an uncommitted one was already there. |
| Runs.ResumeExtends | internal/enforce/enforce.go:211-240 | What a successful recovery reads is sound and is the committed log or that and one entry more. |
| Agreement.VerifierPassMeansProxyAllows | internal/export/verify.go:273-435 | If the verifier passes an allowed entry, the proxy, given the request its evidence rebuilds at that slot, allows it if and only if the action is routine or a status source exists, with equal classification, rule, version and hop count. |
| Agreement.ProxyEntryVerdict | internal/export/verify.go:209-435 | Of an entry the proxy recorded under any evaluator: without its evidence it fails; with it a denial passes as one, and an allow passes exactly when the export carries the policy it was decided under and the approval carried, if any, holds, as it does for a consequential allow. |
| Agreement.DecideAllowsIff | internal/enforce/enforce.go:711-761 | Under any evaluator, decide allows if and only if it answers and permits, the caveats hold and a consequential action has a status source and is unrevoked and approved at this position; the evaluator's classification is never changed. |
| Agreement.DenialNamesFirstGate | internal/enforce/enforce.go:711-777 | Under any evaluator, its own denial stands as it gave it; any other denial names the first gate failed in the order evaluation, authority, status source, look-up, revocation, approval. The recorded hop count is the sweep's for revocation and approval, and the evaluator's own for the others, a failed look-up included. |
| Enforcement.DecideRequest | internal/enforce/enforce.go:711-761 | The calls in their order, each with its early exit, come to the specified decision. |
| Agreement.CountTrueIff | internal/enforce/enforce.go:733-752 | Where a decision comes to the sweep, the count it records is the number of hops that answered if and only if no look-up failed or that number is the evaluator's own count. |
| Agreement.ShippedCountTrueIff | internal/enforce/enforce.go:733-752 | Under the shipped classifier: if and only if no look-up failed or none had answered before it did. |
| Witnesses.FailedLookupForgetsCount | internal/enforce/enforce.go:733-752 | A chain whose first hop is live and whose second has no list: the denial records 0 hops although one answered. |
| Agreement.NoStatusSourceDiverges | internal/enforce/enforce.go:711-761 | With no status source, a consequential entry the verifier passes is one the proxy refuses, and its chain bears no status at all. |
| Witnesses.ConsequentialPassesWithoutSource | internal/export/verify.go:348-394 | A passing export with a consequential allow and no status source. |
| Agreement.RecordedEvidenceStands | internal/export/verify.go:223-269 | If every credential an entry names is kept with a valid issuance proof, it re-resolves to the same credentials and principals as the request it came from. |
| Agreement.EvidencedIsKept | internal/export/verify.go:234-269 | Conversely, evidence the verifier accepts holds every credential the entry names with a valid issuance proof. |
| Agreement.AllowMeans | internal/enforce/enforce.go:711-761 | A recorded allow was permitted by its evaluator, whichever it was, under satisfied caveats, and a consequential one was swept over a status source, counted and approved. |
| Enforcement.AnyHopRevoked | internal/enforce/enforce.go:786-818 | The sweep stops at the first status-bearing hop that is revoked or cannot be looked up, and counts the hops checked. |
| Enforcement.LookUp | internal/enforce/enforce.go:786-818 | What one hop's list says of it, if its authority's key signed it as it stands; unknown otherwise, as HopAnswerIff states. |
| Enforcement.SweepMeaning | internal/export/verify.go:468-490 | The proxy's sweep is clear if and only if the verifier's own look-ups find every status-bearing hop live, and then its count is the number of such hops. |
| Enforcement.SweepStops | internal/enforce/enforce.go:786-818 | A sweep is clear if and only if no hop is revoked or unknown, having counted the listed hops; otherwise it stopped at the first hop that is, having counted the listed ones up to it. |
| Enforcement.SweepCounts | internal/enforce/enforce.go:786-818 | A sweep that came to an answer counted exactly the hops that answered. |
| Enforcement.EvidenceFor | internal/enforce/enforce.go:826-842 | Returns each credential of the chain not already on record, once and in order, beside the identifiers of all of them, changing nothing. |
| Enforcement.NewEvidenceMeans | internal/enforce/enforce.go:826-842 | New evidence is records of links of the chain, none already known and none twice. |
| Enforcement.ReadWAL | internal/enforce/wal.go:76-97 | Reads all records in order, or refuses the file if any line is malformed. |
| Enforcement.WAL.OpenWAL | internal/enforce/wal.go:60-70 | Opens exactly the readable files and hands back their records. |
| Enforcement.WAL.Append | internal/enforce/wal.go:109-128 | Succeeds exactly when the log is open and the write reached stable storage; a failure may leave nothing, the record, or part of it. |
| Enforcement.WAL.Close | internal/enforce/wal.go:131-140 | After it, the contents stand and appends fail. |
| Enforcement.Proxy.NewProxy | internal/enforce/enforce.go:136-188 | Starts empty, or from a durable log if and only if its chain verifies under the signer's key and its policy continues. |
| Enforcement.Proxy.RecoverFrom | internal/enforce/enforce.go:211-240 | Loads entries and evidence from verified records, or refuses without taking any. |
| Enforcement.Proxy.DecideAndAppend | internal/enforce/enforce.go:388-491 | Entry, evidence and record go in together with the decision returned, or entry and evidence do not go in at all. |
| Enforcement.Proxy.DecideAndSeal | internal/enforce/enforce.go:388-476 | Refuses a proof not bound to the tip; otherwise seals what DraftFor records of this request there, with the evidence it adds, and changes nothing. |
| Enforcement.Proxy.Store | internal/enforce/enforce.go:464-490 | Writes ahead, then commits, then admits the evidence; memory moves only if the write did not fail. |
| Enforcement.Proxy.Handle | internal/enforce/enforce.go:342-379 | A malformed or unattributable request leaves no trace; any other is decided and logged, or refused without entry or evidence. |
| Enforcement.Proxy.ExportLog | internal/enforce/enforce.go:846-850 | A v2 export whose envelope verifies under the proxy's own key and which holds exactly its log, its evidence and its carried policy; the completeness theorems are about every such export. |
| Exports.EnvelopePinsExport | internal/export/export.go:178-206 | Two passing exports with one envelope signature have equal version, signer and policy, equal entries up to signature bytes (equal outright if signing is deterministic), and the same credential under every identifier an entry names. |
| Exports.OnlyExportedLogsPass | internal/export/verify.go:448-464 | Where a signer's key has signed only the headers of given exports of verifying logs, a passing export under that signer holds the log and policy of one of them. |
| Guarantees.OnlyThisLogPasses | internal/export/export.go:150-194 | Carried to runs: if those exports were taken of a reachable log or earlier states of it, a passing export holds exactly what one of them held; if all of this state, this log and policy, so nothing shortened, extended or altered passes. |
| Exports.PassingIsSealed | internal/export/verify.go:448-464 | A passing export's envelope is a signature by the key its signer resolves to over its version, signer, policy, count and tip, and each entry is signed by that key at its place in the chain. |
| Exports.EnvelopeMeans | internal/export/verify.go:448-464 | The envelope check holds if and only if that is so. |
| Exports.ChainedMeans | internal/audit/audit.go:267-290 | A log verifies under a key if and only if each entry carries that key's signature over its own digest, at its own index, on the digest before it. |
| Exports.PassingIsIssued | internal/export/verify.go:234-258 | Every credential an entry of a passing export names is carried and signed by its issuer's resolved key, so one no principal signed is on none. |
| Exports.BreakReported | internal/export/verify.go:189-205 | In a report the first break is FAIL, every later entry UNVERIFIED and every earlier one its own verdict, each under its own sequence number. |
| Exports.CleanIffPasses | internal/export/verify.go:114-124 | A report is clean if and only if the export is v2, its envelope and its whole chain verify, and no entry fails. |
| Exports.Verify | internal/export/verify.go:168-206 | Reports each entry before the first break by its own verdict, the break as FAIL and everything after it as UNVERIFIED; an envelope that its signer's key did not sign over this version, policy, count and tip is fatal. |
| Exports.ReportPasses | internal/export/verify.go:114-124 | A report passes exactly when it is not fatal, carried evidence, and has no failed or unverified entry. |
| Exports.VerifyEntry | internal/export/verify.go:209-435 | Returns the verdict its evidence, policy, caveats, status, possession and approval determine, in the verifier's order of exits. |
| Exports.JustifyAllow | internal/export/verify.go:273-435 | Accepts an allow exactly when the carried policy, the caveats, the status lists, the proof of possession and any approval all hold. |
| Exports.CollectLinks | internal/export/verify.go:234-252 | Finds every hop's record under its key and content address, or fails. |
| Exports.SamePrincipals | internal/export/verify.go:260-269 | The recorded principals are those of the chain, position by position. |
| Exports.ReResolve | internal/export/verify.go:223-269 | Succeeds exactly when the evidence is present, verifies as a chain and reproduces the recorded principals. |
| Exports.CountStatusBearing | internal/export/verify.go:359-364 | Counts the hops that bear a status reference. |
| Exports.StatusStep | internal/export/verify.go:348-394 | Accepts exactly when the recorded count is the number of status-bearing hops and each has a list its authority signed that does not hold its index, by NoHopRevokedMeans. |
| Exports.HopAnswerIff | internal/export/verify.go:468-497 | A hop is revoked or not exactly when a list is published at its address, above the floor, signed as it stands by the key its authority resolves to, with its index in range and in the set or not; any other list gives no answer. |
| Exports.NoHopRevokedMeans | internal/export/verify.go:348-394 | No hop is revoked if and only if each status-bearing hop has such a list without its index. |
| Exports.ApprovalStep | internal/export/verify.go:408-431 | A consequential allow must carry an approval, and any approval carried must be whole and verify. |
| Exports.ApprovalMeans | internal/audit/audit.go:369-381 | An approval verifies if and only if it is the named approver's resolved key's signature over this actor, action and position. |
| Exports.PolicyStep | internal/export/verify.go:281-331 | The carried policy is the recorded one and re-derives the recorded classification as an allow. |
| Exports.CredentialSet.Add | internal/export/export.go:221-230 | Files a credential under its content address once, keeping what was there. |
| Exports.AddRecordMeans | internal/export/export.go:221-230 | Adding a credential files it under its content address if nothing was there, and changes no other record. |
| Audit.VerifyEntries | internal/audit/audit.go:267-290 | Returns -1 if and only if every entry is in sequence, linked, hashed and signed, otherwise the least index that is not. |
| Audit.FirstBreakUnique | internal/audit/audit.go:267-290 | A log has only one first break. |
| Audit.TipPinsLog | internal/audit/audit.go:294-307 | Two verifying logs of one length and one tip, under whatever keys, agree on everything a hash covers. |
| Audit.SealAt | internal/audit/audit.go:150-177 | What Seal makes of a draft keeps the log chained wherever it is appended at that tip. |
| Audit.Log.Seal | internal/audit/audit.go:150-177 | Fixes the position, hashes and signs, and appends nothing. |
| Audit.Log.Commit | internal/audit/audit.go:184-191 | Appends exactly the entries sealed for the current slot. |
| Audit.Log.Append | internal/audit/audit.go:129-138 | Is Seal followed by Commit and fails only when signing does. |
| Audit.Log.LoadLog | internal/audit/audit.go:203-208 | Resumes exactly the logs that verify under the signer's own key. |
| Audit.Log.Tip | internal/audit/audit.go:215-220 | The next sequence number and the hash it must link to. |
| Audit.LogRunKeeps | internal/audit/audit.go:129-191 | Any sequence of seals, and commits of what was sealed, keeps the log verifiable and only extends it. |
| Audit.SealCommitProtocol | internal/audit/audit.go:129-220 | However they interleave, the log passes VerifyEntries and no two entries hold one slot. |
| Audit.OneCommitPerTip | internal/audit/audit.go:184-191 | Once one entry sealed against a tip is committed, no later state accepts another. |
| Macaroons.NarrowsSound | internal/macaroon/macaroon.go:248-357 | If a child caveat narrows its parent, every context that satisfies the child satisfies the parent. |
| Macaroons.NarrowsItselfIff | internal/macaroon/macaroon.go:248-312 | A well-formed caveat narrows itself if and only if it is not an ordering bound that parses to NaN. |
| Macaroons.RepeatAdmittedIff | internal/macaroon/macaroon.go:79-109 | A caveat may be added a second time if and only if it could be added once and is not a NaN bound. |
| Macaroons.EqualCaveatAccepted | internal/macaroon/macaroon.go:79-109 | A macaroon and a caveat it already carries that Attenuate accepts. |
| Macaroons.NaNCaveatRefusedTwice | internal/macaroon/macaroon.go:316-336 | A caveat that validates and is admitted once and refused against itself. |
| Macaroons.BoundSubsetSound | internal/macaroon/macaroon.go:316-336 | A bound accepted as a subset admits no value the parent bound does not. |
| Macaroons.BoundSubsetExact | internal/macaroon/macaroon.go:316-336 | For two bounds of one direction, neither NaN, the subset check holds if and only if every value that meets the child bound meets the parent bound. |
| Macaroons.BoundsNarrowIff | internal/macaroon/macaroon.go:270-312 | A bound narrows a bound if and only if both point one way, neither is NaN and the child's values are the parent's. |
| Macaroons.NarrowsIffContained | internal/macaroon/macaroon.go:252-357 | For equality under equality, inequality under inequality, and equality or a set under a bound or a set, narrowing is containment of what satisfies them, both ways. |
| Macaroons.UndecidedRefused | internal/macaroon/macaroon.go:248-267 | Every other pair of operators is refused. |
| Macaroons.ContainedButRefused | internal/macaroon/macaroon.go:252-267 | A set of one member under equality with that member is contained and refused. |
| Macaroons.SatisfiedMeans | internal/macaroon/macaroon.go:212-244 | When a caveat is satisfied, operator by operator; an absent field or an unknown operator never is. |
| Macaroons.InstantsOrder | internal/macaroon/macaroon.go:212-244 | Between two RFC 3339 instants in the window an ordering caveat, expiry included, is the order of the instants. |
| Macaroons.FirstCaveatRefusedIff | internal/macaroon/macaroon.go:361-378 | The first caveat is refused exactly for a blank field, an unknown operator, an empty value or a bound that is no scalar. |
| Macaroons.CheckNarrows | internal/macaroon/macaroon.go:252-267 | The dispatch over operators computes the narrowing relation, errors included. |
| Macaroons.CheckNarrowsBound | internal/macaroon/macaroon.go:270-312 | The bound case, with incomparable values refused; what it accepts is containment exactly, by BoundsNarrowIff and NarrowsIffContained. |
| Macaroons.CheckNarrowsSet | internal/macaroon/macaroon.go:339-357 | The set case: every child member is a parent member. |
| Macaroons.CheckSatisfies | internal/macaroon/macaroon.go:202-209 | Succeeds exactly when every caveat holds of the context. |
| Macaroons.CheckAdmits | internal/macaroon/macaroon.go:84-98 | Accepts a caveat exactly when it is well-formed and narrows every existing caveat on its field. |
| Macaroons.Attenuate | internal/macaroon/macaroon.go:84-109 | Adds an admitted caveat; the result allows exactly what both the old macaroon and the caveat allow. |
| Macaroons.Extends | internal/macaroon/macaroon.go:118-153 | Computes the structural subset check. |
| Macaroons.ExtendsIffAttenuated | internal/macaroon/macaroon.go:84-153 | Extends succeeds if and only if the identifier is the same and the caveats come from the parent's by successive successful attenuations. |
| Macaroons.ExtendsTransitive | internal/macaroon/macaroon.go:118-153 | Extends is transitive. |
| Macaroons.LastCaveatDecides | internal/macaroon/macaroon.go:202-209 | For any macaroon made by Mint and Attenuate, checking the last caveat on each field equals checking all of them. |
| Macaroons.LastDecidesWhenAdmitted | internal/macaroon/macaroon.go:202-209 | The same for any caveats that were each admitted by those before them. |
| Chains.LastCaveatDecidesInChain | internal/chain/chain.go:131-190 | At every hop of a verified chain the last caveats decide on every context if and only if one of them is satisfied by nothing or each root caveat still last on its field admits nothing an earlier root caveat on it refuses; so it is when the root's caveats were each admitted by those before them. |
| Witnesses.LastCaveatCanMislead | internal/chain/chain.go:179-187 | A chain that verifies and whose root's last caveat on a field does not decide. |
| Macaroons.LastDecidesIff | internal/macaroon/macaroon.go:202-209 | For any caveats, checking the last on each field is checking all of them on every context if and only if some last caveat is satisfied by nothing or each admits nothing an earlier one on its field refuses. |
| Macaroons.OnlyTheRootMatters | internal/macaroon/macaroon.go:118-153 | Caveats admitted in turn after a root never break that: only the root's own can. |
| Macaroons.LastDecidesAfterRoot | internal/macaroon/macaroon.go:118-153 | The exact condition for caveats that extend a root's. |
| Macaroons.VerifyMacaroon | internal/macaroon/macaroon.go:180-189 | Accepts exactly when the tag recomputed from the root key matches and the caveats hold. |
| Macaroons.BuiltTagMatches | internal/macaroon/macaroon.go:71-109 | The recomputed tag always matches what Mint and Attenuate produced. |
| Macaroons.TagPinsCaveats | internal/macaroon/macaroon.go:180-189 | Under one root key equal tags mean equal identifier and, for unambiguous caveats, equal caveats in order. |
| Macaroons.CanonicalInjective | internal/macaroon/macaroon.go:383-385 | Caveats without the separator in their field are determined by their canonical bytes. |
| Macaroons.CanonicalEqualIff | internal/macaroon/macaroon.go:383-385 | Two caveats with known operators share their canonical bytes if and only if they are equal or one is the other with the separators moved to the right. |
| Macaroons.SeparatorInFieldCollides | internal/macaroon/macaroon.go:383-385 | Two different caveats that both validate and have the same canonical bytes, because a field holds the separator. |
| Text.MemberIff | internal/macaroon/macaroon.go:407-416 | A string is a member of a set if and only if it is non-empty and some comma-separated part trims to it. |
| Text.SplitSet | internal/macaroon/macaroon.go:407-416 | Computes that set in order. |
| Text.SplitJoins | internal/macaroon/macaroon.go:407-416 | No part of a split holds a comma, and the parts joined by commas give the text back. |
| Text.SplitIsOnly | internal/macaroon/macaroon.go:407-416 | They are the only parts that do. |
| Text.TrimMeans | internal/macaroon/macaroon.go:407-416 | Trimming takes white space off both ends, all of it and nothing else. |
| Scalar.ParseMeans | internal/scalar/scalar.go:92-126 | An RFC 3339 text in the int64 window denotes its own nanoseconds, one outside it nothing; any other text denotes its number, infinities refused. |
| Scalar.SatisfiesMeans | internal/scalar/scalar.go:131-147 | Each operator holds exactly when neither side is NaN and the denoted numbers stand in that order. |
| Scalar.CompareExact | internal/scalar/scalar.go:153-219 | On all non-NaN values Compare is the sign of the exact difference of the denoted numbers, across instants and doubles. |
| Scalar.CmpInt64FloatExact | internal/scalar/scalar.go:197-219 | The mixed comparison is exact for every int64 and every double, infinities included. |
| Scalar.CompareIsOrder | internal/scalar/scalar.go:39-51 | Compare is therefore total, antisymmetric and transitive across kinds. |
| Scalar.NaNIsUnordered | internal/scalar/scalar.go:128-165 | NaN is unordered with everything and satisfies no operator. |
| Policies.Evaluate | internal/policy/policy.go:240-282 | The top-to-bottom scan computes the classification whose fields EvaluationMeans states. |
| Policies.EvaluationMeans | internal/policy/policy.go:240-282 | Where a rule is the first to speak and holds, the decision is allowed unless it denies, with its consequentiality, name and reason; where it cannot be evaluated, a consequential denial naming its fields; where none speaks, the default's; always under the policy's version. |
| Policies.RuleMeans | internal/policy/policy.go:291-303 | A rule holds if and only if each condition read as a caveat is satisfied, and is indeterminate if and only if it orders some present field that is, or against a bound that is, no scalar. |
| Policies.Validate | internal/policy/policy.go:164-208 | Accepts exactly the valid policies. |
| Policies.ReasonAlwaysStated | internal/policy/policy.go:188-204 | A validated policy never decides without a stated reason. |
| Policies.FirstToSpeakDecides | internal/policy/policy.go:240-282 | The least rule that matches or cannot be evaluated decides, as a deny in the latter case; otherwise the default. |
| Policies.EvalRule | internal/policy/policy.go:291-303 | Matched if and only if every condition holds, indeterminate if and only if some condition is. |
| Policies.EvalCondition | internal/policy/policy.go:343-389 | Computes the three-valued answer of one condition. |
| Policies.IndeterminateFields | internal/policy/policy.go:314-322 | The fields of the conditions that could not be evaluated, in order. |
| Policies.ConditionOrderIrrelevant | internal/policy/policy.go:291-303 | A rule's answer is the same under any permutation of its conditions. |
| Policies.CaveatMeansCondition | internal/policy/policy.go:343-389 | For every field, operator, value and context a caveat is satisfied if and only if the condition answers (true, false). |
| Rego.TranslationPreservesMeaning | experimental/policy-opa/compile.go:41-207 | For every validated policy and every action without NaN operands, the module has exactly one decision and it is the classifier's, reason and field order included. |
| Rego.ModuleMeans | experimental/policy-opa/compile.go:41-174 | The module's decision, field by field, in the three cases. |
| Rego.CompileDecisions | experimental/policy-opa/compile.go:163-171 | The table of decisions, one per rule. |
| Rego.BodyHoldsIff | experimental/policy-opa/compile.go:237-303 | A compiled rule body holds exactly when every condition does, whatever its local names already stand for. |
| Rego.BlockedIsBad | experimental/policy-opa/compile.go:185-207 | The fields the module finds uncomparable are the classifier's indeterminate fields, in order. |
| Rego.ConsideredIffSpeaks | experimental/policy-opa/compile.go:41-174 | A rule index is considered exactly when the rule matches or is indeterminate. |
| Rego.DecisionAt | experimental/policy-opa/compile.go:41-174 | The least considered index yields one decision, the rule's or the uncomparable deny. |
| Rego.CompileModule | experimental/policy-opa/compile.go:41-174 | The compiling loops build the specified module, or fail on an unsupported operator. |
| Rego.CompileConditions | experimental/policy-opa/compile.go:237-247 | Concatenates the compiled conditions in order, each with its own local name. |
| Rego.OrderingFields | experimental/policy-opa/compile.go:185-207 | Builds the table of ordered fields, leaving out rules without any. |
| Chains.Verify | internal/chain/chain.go:131-190 | Accepts exactly the chains of one to eight hops whose every hop is signed by its issuer, holder-bound, continuous and narrower, which ChainMeans states in the keys and signatures themselves, and otherwise names the first failing hop. |
| Chains.ChainMeans | internal/chain/chain.go:131-190 | A verified chain has one to eight hops, each signed over as a whole by the key its issuer resolves to, bound to the key its subject resolves to, and issued by the subject before it under one macaroon identifier. |
| Chains.IssuanceMeans | internal/chain/chain.go:103-126 | An issuance proof is valid if and only if it is that signature. |
| Chains.ListPrincipals | internal/chain/chain.go:194-204 | The root issuer followed by each hop's subject. |
| Chains.TerminalAuthorityIsEveryHops | internal/chain/chain.go:131-190 | In a verified chain, whatever satisfies the terminal macaroon satisfies every hop's. |
| Chains.ActorIsBound | internal/chain/chain.go:160-176 | The last principal of a verified chain is the terminal subject, bound to its own resolved key. |
| Chains.SameCredentialsVerify | internal/chain/chain.go:131-204 | Verification and principals depend only on the credentials and on each having some valid proof. |
| Issuing.Validate | cmd/issuer/publish.go:114-148 | Accepts exactly the valid specs. |
| Issuing.ListedPrincipals | cmd/issuer/publish.go:153-171 | The distinct non-empty DIDs the spec mentions. |
| Issuing.DistinctMeans | cmd/issuer/publish.go:153-171 | That list holds every non-empty mention and nothing twice. |
| Issuing.DistinctOrdered | cmd/issuer/publish.go:153-171 | It is in the order of first mention. |
| Issuing.MintChain | cmd/issuer/publish.go:213-279 | The minting loop succeeds exactly when every caveat in turn narrows, and gives each hop the caveats of all hops so far under its issuer's signature. |
| Issuing.GrantHop | cmd/issuer/publish.go:232-277 | One hop's credential over the caveats so far, bound to its subject's key and the spec's status list, signed by its issuer. |
| Issuing.Publish | cmd/issuer/publish.go:194-292 | Succeeds if and only if the spec is valid, every mentioned principal has a key, the root key decodes and the caveats narrow; publishes the minted chain and an all-clear list that verifies. |
| Issuing.MintedChainVerifies | internal/chain/chain.go:131-190 | Whatever publish mints passes chain verification against the DID documents of the spec's principals, never delegates to itself, and every hop's tag matches the root key. |
| Issuing.MintedAuthority | cmd/issuer/publish.go:220-231 | A hop's macaroon allows exactly what the caveats of every hop up to it allow. |
| Issuing.PublishedListDecides | cmd/issuer/publish.go:236-253 | A published hop is revoked exactly when the status issuer's list holds its index, whoever issued the hop; out of range there is no answer. |
| Issuing.SweepOfPublished | cmd/issuer/publish.go:236-292 | The revocation sweep over a published chain is clear if and only if every index is in range and not revoked. |
| Issuing.Revoke | cmd/issuer/publish.go:312-335 | Adds or removes exactly one index and signs the list again, or refuses. |
| StatusLists.StatusList.constructor | internal/status/status.go:107-116 | At least the floor and the requested bits, rounded up to a byte, with nothing revoked. |
| StatusLists.StatusList.Set | internal/status/status.go:122-133 | Adds or removes exactly one index of the revoked set, or refuses one out of range. |
| StatusLists.StatusList.Lookup | internal/status/status.go:136-142 | Membership in the revoked set, or an error out of range. |
| StatusLists.StatusList.SignWith | internal/status/status.go:153-161 | Stamps the issuer and signs the current contents. |
| StatusLists.StatusList.Verify | internal/status/status.go:180-197 | Accepts exactly a list above the floor that its named authority signed as it stands. |
| StatusLists.ApplyUpdates | internal/status/status.go:122-142 | After any sequence of Set calls lookup equals membership in the abstract set. |
| StatusLists.ShiftedMask | internal/status/status.go:122-142 | The shift gives the most-significant-first mask of the index. |
| StatusLists.UpdateOne | internal/status/status.go:122-133 | Rewriting one byte changes one index of the most-significant-first layout and no other. |
| StatusLists.RevokedSetDetermines | internal/status/status.go:107-142 | Equal length and equal revoked sets mean equal bytes. |
| StatusLists.ChangedListFailsVerify | internal/status/status.go:180-212 | A signed list verifies with its old signature if and only if nothing about it changed. |
| Wire.EncodeInjective | internal/credential/credential.go:279-301 | Well-formed signed messages have equal bytes if and only if they are equal, whatever bytes the nonce holds. |
| Wire.PopTailUnique | internal/credential/credential.go:279-301 | Nonce, action, sequence number and previous hash are read back from the right in only one way. |
| Wire.DomainsSeparate | internal/audit/audit.go:335-391 | Messages of different kinds never share their bytes, whatever their fields hold. |
| Wire.BigEndianValue | internal/export/export.go:178-194 | A number below 256 to the k survives its k big-endian bytes. |
| Wire.PopEncodesIff | internal/credential/credential.go:279-301 | Whatever bytes subject and identifier hold, two proofs of possession share their bytes if and only if action and slot are the same and subject, identifier and nonce run together with their NULs are. |
| Wire.NulInIdentifierCollides | internal/credential/credential.go:279-301 | Two different proofs of possession with the same bytes when a macaroon identifier holds a NUL. |
| Wire.NulInSubjectCollides | internal/credential/credential.go:279-301 | Two different proofs of possession with the same bytes when a subject holds a NUL. |
| Wire.UnfixedHashCollides | internal/credential/credential.go:279-301 | Two different proofs of possession with the same bytes were the previous hash allowed any length. |
| Wire.SymbolicMessagesExact | internal/status/status.go:202-212 | With one-to-one text and body encodings and no hash collision, bytes are equal if and only if the symbolic messages are. |
| Types.FillContext | pkg/types/types.go:84-93 | The field map holds every attribute, with the reserved names always the action's own. |

## Left out

- Real cryptography: Ed25519, P-256, SHA-256 and HMAC are symbols that never collide and are never forged.
- JSON, base64, hex and time formatting: canonical bodies are one-to-one NUL-free byte strings, and hex decoding is a parameter.
- Rounding of decimal text to a double: parsing a number or an instant is one given partial function; only its results are ordered.
- NaN operands in the Rego translation: `Rego.TranslationPreservesMeaning` excludes them, since Rego has no NaN and what OPA's own number conversion makes of one is not part of this model.
- Rego as text: the module is an abstract syntax tree, so quoting, comments and OPA's own evaluation and timeouts are not modelled.
- Error texts: errors are told apart only where a caller acts on the difference, and the reasons of denials are kept as causes.
- A partial record that would parse together with the line after it: a torn line is always malformed.
- Resolvers that change during a run: DID documents and status lists are fixed, as completeness requires.
- Threads below the lock: concurrency is the interleaving of machine steps, since the original holds one mutex from the tip read to the evidence.
- The HTTP, MCP and ingress shells, and the best-effort sinks, which never feed back into a decision.
- Parsing of exports, credentials, chains and status lists from files, and all file writes of the issuer.
- DID and web-host URL handling, keystores, signer daemons, enrolment, configuration, command lines, shadow mode and the credential wrapper.
- The limitation notes a report carries, which are fixed prose.
- Any claim that an `expiry` caveat bounds real time: the timestamp is the caller's, and `expiry` is an ordinary field.
