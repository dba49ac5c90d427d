# SciCapsule: a verified model of authorisation and execution

SciCapsule packs programs into capsules, decides whether a capsule may run, materialises it and
runs it under supervision. This project models the part of the program that carries the trust:

1. **Trust policies** (`TrustPolicy`, `TrustLifecycle`, `TrustEvaluation`, `TrustGrowth`): validation, canonical
   JSON, creation, controlled updates that link each revision to the digest of the one before it,
   cumulative revocation, and the threshold over distinct unrevoked keys inside a time window.
2. **Safe materialisation** (`Paths`, `Extraction`): the string-level preflight, the loop that
   creates directories and files in a staging directory, and the publication by a rename that
   never replaces anything.
3. **Requests and command lines** (`CommandLine`, `HubRequest`, `HubCreate`, `RunCommand`): what a
   command line asks for, building a request canonically, printing it as an argument vector and
   parsing it back.
4. **Execution** (`Capture`, `Runner`, `HubRun`): bounded capture of output, the polling and
   killing and draining of a supervised process, and `hub-run`, which pins its inputs in private
   snapshots while anybody may change the files it was given.
5. **Authenticated encodings and budgets** (`Signature`, `Signing`, `Dsse`, `Base64`, `Pack`): detached
   signatures and what accepting them implies, the DSSE pre-authentication encoding, signing and verification of provenance, and
   the byte budget of `pack`.

`Basics`, `Decimal`, `Hex`, `Json`, `JsonSize`, `Records` and `Ordering` hold what these share. `Json` is a
printer and a parser for the documents the program writes; strings follow section 7 of RFC 8259.

## How the model is built

- Text and byte buffers are both `string`, one `char` per byte; a Rust `str` is its UTF-8 bytes.
  `Bytes` restricts the chars to 8 bits. `u32` and `u64` are subset types and `usize` is 64 bits
  wide; checked additions and subtractions are written out.
- A loop or a method that updates variables is a Dafny method with the same branches, proved equal
  to a specification function; what the program promises is then proved about that function. The
  file system, a supervised execution and the host of a `hub-run` are classes.
- SHA-256, Ed25519 and PEM decoding are arbitrary function values (`TrustPolicy.Crypto`,
  `Signing.PrivateKeys`, `Dsse.System`). Nothing is assumed about them: statements about digests
  say "equal, or these two texts collide", and what is expected of the signature scheme is a
  hypothesis of the lemmas that need it: `Signing.Correct` (signatures verify), and the idealised
  `Signing.Exact` (for these two messages a signature verifies under its own key and message only)
  and `Signing.Unforgeable` (whatever verifies was signed).
- Clocks, other processes and child processes are parameters. In `HubRun` a `World` says what the
  caller-owned files hold at each look of the program and what the clock then shows; every
  statement is for all worlds, so others may change anything between any two steps, in answer to
  anything. Only the program's own private directories are out of their reach.
- Error values keep the kind of error and the data it names, not the wording.

## What the proofs found

- A hand-written Hub request may have an `=` inside an environment name, because request
  validation does not exclude it and docs/HUB_CONTRACT.md has no rule about it. Such a request is valid but its command line is read back
  differently; `HubRequest.RequestRendersExactly` shows that the absence of `=` in names is exactly
  the condition, `HubRequest.EqualsInNameExample` gives an instance, and
  `HubCreate.CreatedIsDelivered` shows that the program's own requests always meet it.
- The policy update command writes documents of any size but reads at most 256 KiB, and the
  revocation list only grows. `TrustLifecycle.HistoryThroughDocuments` gives the exact condition
  under which a history can be continued from its files; `TrustGrowth.LimitReached` shows that
  3592 successful updates, each revoking one fresh key, pass it, and `TrustGrowth.OutgrownForGood`
  that no later policy of such a history can be updated either. Up to 1,000 revocations no history
  is affected (`TrustGrowth.SmallRunsStayReadable`).
- A `pack` byte limit equal to the largest `u64` always fails as soon as there is a source to read
  (`Pack.PackIff`); `pack`'s accounting errors can never occur (`Pack.PackedFits`).
- The "threshold cannot be met" check of the policy window never changes a verdict
  (`TrustEvaluation.AcceptsIff`), and the final validation of a policy update never fails
  (`TrustLifecycle.UpdateSucceedsIff`).

## Model

| member | source | states |
|---|---|---|
| TrustPolicy.CheckRevocations | src/trust.rs:434-445 | the loop accepts exactly lists of well-formed entries with pairwise different fingerprints |
| TrustPolicy.CheckKeys | src/trust.rs:480-514 | the loop accepts exactly keys with valid names and key bytes, no name and no key twice |
| TrustPolicy.Validate | src/trust.rs:380-516 | accepts exactly the valid policies: version, lifecycle fields, revocations, algorithm, counts, threshold, keys |
| TrustPolicy.EncodeRoundTrip | src/trust.rs:17-79 | every policy printed as JSON reads back as itself; absent fields and an empty revocation list are omitted and restored, any text survives escaping |
| TrustPolicy.JsonRoundTrip | src/trust.rs:64-79 | reading a printed policy gives it back exactly when it is valid |
| TrustPolicy.EncodeInjective | src/trust.rs:72-79 | different policies have different documents, so a digest is taken over an injective encoding |
| TrustPolicy.DocumentFields | src/trust.rs:17-45 | the document of a policy is an object of declared members, none twice, and each scalar field is found under its serde name |
| TrustPolicy.PolicyStrict | src/trust.rs:17-70 | only objects of declared members, none repeated, are read as policies |
| Hex.DigestFormat | src/trust.rs:519-548 | every digest `sha256_digest` emits passes `validate_digest` |
| Hex.DigestInjective | src/trust.rs:519-528 | equal digest texts come from equal hashes |
| Hex.HexExample | src/trust.rs:519-528 | high nibble first, in lower case |
| TrustLifecycle.DecodePemKeys | src/trust.rs:81-110 | decoding keys in order, failing on the first bad one |
| TrustLifecycle.DecodePemsIff | src/trust.rs:81-110 | decoding gives exactly the list whose i-th key has the i-th name and the key of the i-th PEM text, and fails exactly when some text is not a key |
| TrustLifecycle.CreatePolicy | src/trust.rs:112-134 | revision 1 is created exactly when the keys decode and both the plain and the lifecycle policy validate |
| TrustLifecycle.CreateIff | src/trust.rs:112-134 | a policy is created exactly when it is a valid first revision with the given identifier, window, threshold and keys; checking the plain policy first never matters |
| TrustLifecycle.RevokeNames | src/trust.rs:179-207 | the loop over revoked names computes the specified list or its first error |
| TrustLifecycle.BuildSuccessor | src/trust.rs:172-209 | the rest of an update after the new keys are accepted: revision, predecessor digest, revocations, final validation |
| TrustLifecycle.UpdatePolicy | src/trust.rs:136-210 | the whole update is the specified transition, with every check in its order |
| TrustLifecycle.RevokeExtends | src/trust.rs:179-207 | revoking keeps every earlier entry in place and appends only valid, new ones dated at the successor's start |
| TrustLifecycle.RevokeLists | src/trust.rs:188-206 | after revoking, the key of every given name is listed |
| TrustLifecycle.RevokeOnlyNamed | src/trust.rs:181-207 | every appended entry has the fingerprint of a current key whose name was given |
| TrustLifecycle.RevokeSucceeds | src/trust.rs:182-194 | revoking succeeds exactly on distinct names of current keys |
| TrustLifecycle.RepeatedIff | src/trust.rs:182-194 | a repeated name is reported exactly when one comes before any unknown name |
| TrustLifecycle.UpdateLinks | src/trust.rs:145-209 | a successful update keeps the policy id, counts the revision up by one, carries the predecessor's digest, never moves the start back, and revokes every named key |
| TrustLifecycle.UpdateSucceedsIff | src/trust.rs:165-209 | after the version, digest, start and key checks an update fails only on revision overflow or a repeated or unknown name; the final validation never fails |
| TrustLifecycle.UpdateIff | src/trust.rs:145-209 | an update succeeds if and only if the policy is valid, is version 2 and has the expected digest, the start does not move back, the new keys are accepted, the revision is below the maximum, and the names are distinct names of current keys |
| TrustLifecycle.RefusedIff | src/trust.rs:145-209 | which error a refused update reports: the first of its conditions that fails; the final validation is never the reason |
| TrustLifecycle.UpdateTargetsOne | src/trust.rs:151-156 | an update that succeeds on two policies: they are equal or their documents collide, so no update is lost |
| TrustLifecycle.HistoryInvariant | src/trust.rs:136-210 | over every run from a creation: valid, constant id, revision one plus the number of updates, every revocation dated at or before the start |
| TrustLifecycle.HistoryMonotone | src/trust.rs:157-207 | between any two states of a run the start never decreases and the revocation list only grows |
| TrustLifecycle.HistoryLinked | src/trust.rs:172-178 | every policy of a run carries its position and its predecessor's digest |
| TrustLifecycle.ChainComplete | src/trust.rs:404-424 | of valid lifecycle policies that count up, the first names no predecessor exactly when they reach back to revision 1 |
| TrustLifecycle.DigestPinsLinked | src/trust.rs:151-178 | linked policies with equal digests agree all the way back, or the search returns two colliding documents |
| TrustLifecycle.DigestPinsHistory | src/trust.rs:145-214 | two runs whose newest digests agree are the same history back to revision 1, or two different encoded policies with equal SHA-256 are returned |
| TrustLifecycle.UpdateTrustPolicyCommand | src/product_main.rs:773-812 | the command maps the document read to the printed digest and the new document as specified |
| TrustLifecycle.HistoryThroughDocuments | src/product_main.rs:773-812 | replaying a run through the documents the command writes gives the same run, exactly while documents stay within the 256 KiB read limit |
| TrustGrowth.RevocationsCost | src/trust.rs:72-79 | a policy's document is longer than 73 bytes for each revocation it lists |
| TrustGrowth.PolicySize | src/trust.rs:17-79 | a valid policy's document takes at most 36,000 bytes and, for each revocation, 190 and its quoted reason |
| TrustGrowth.ValidFits | src/product_main.rs:782-786 | every valid policy with at most 130 revocations, whatever their reasons, fits the read limit and reads back |
| TrustGrowth.SmallRunsStayReadable | src/product_main.rs:773-812 | no run is stopped by the read limit while it has revoked at most 1,000 keys |
| TrustGrowth.OutgrownForGood | src/product_main.rs:782-786 | once the revocations of some policy of a run pass the bound, no later policy of the run can be updated from its file, whatever is asked for |
| TrustGrowth.RunIsHistory | src/trust.rs:136-210 | revoking the only key and bringing a fresh one is a run of updates that all succeed, as long as there are keys |
| TrustGrowth.LimitReached | src/product_main.rs:773-812 | whoever has enough keys with different hashes has a run of successful updates whose last policy cannot be updated from its file |
| TrustGrowth.EnoughKeysExist | src/trust.rs:519-532 | there are such keys for some hash function, so the previous statement is not empty |
| TrustEvaluation.MatchKeys | src/trust.rs:242-258 | the loop over the policy's keys collects exactly the specified names |
| TrustEvaluation.VerifyAtUnixSeconds | src/trust.rs:232-260 | the specified decision or error, with every check in its order |
| TrustEvaluation.VerifyRawSignatures | src/trust.rs:267-316 | the same for raw signatures, with the length check |
| TrustEvaluation.MatchedCounts | src/trust.rs:242-258 | each unrevoked, signed key is matched exactly once and the names are distinct |
| TrustEvaluation.MatchedNames | src/trust.rs:243-257 | a name is matched exactly when an unrevoked, signed key of the policy bears it |
| TrustEvaluation.AcceptsIff | src/trust.rs:232-371 | a valid policy accepts exactly inside its window, with 1 to 64 signatures and at least the minimum of distinct unrevoked matched keys; the early threshold check never matters |
| TrustEvaluation.RawAcceptsIff | src/trust.rs:267-371 | the same for raw signatures that all have the right length |
| TrustEvaluation.AllKeysSuffice | src/trust.rs:232-371 | a valid policy can always be satisfied: signatures by all of its keys, none revoked, are accepted inside the window, and all of them are named |
| TrustEvaluation.RefusedIff | src/trust.rs:232-371 | which error a refusal reports, in terms of the window, the number of unrevoked keys, of signatures and of counted keys |
| TrustEvaluation.WindowOpens | src/trust.rs:340-371 | the window of a valid lifecycle policy is never empty: it includes its start and excludes its end |
| TrustEvaluation.RevokedFrom | src/trust.rs:373-378 | in a valid lifecycle policy a key is revoked exactly from the one time listed for its fingerprint on |
| TrustEvaluation.PlainPolicyIsTimeless | src/trust.rs:340-347 | every policy but a version 2 one decides the same at all times |
| TrustEvaluation.MatchedInPolicyOrder | src/trust.rs:242-258 | the matched names are a subsequence of the policy's key names |
| TrustEvaluation.SignatureOrderIrrelevant | src/trust.rs:247-257 | permuting or repeating signatures within the count limit changes neither verdict nor decision |
| TrustEvaluation.RawSignatureOrderIrrelevant | src/trust.rs:304-313 | the same for raw signatures |
| TrustEvaluation.MatchedShrinks | src/trust.rs:373-378 | the signers matched at a later time are a subsequence of those at an earlier one |
| TrustEvaluation.EarlierAccepts | src/trust.rs:232-378 | acceptance carries over to every earlier time inside the window, with more signers |
| TrustEvaluation.AcceptanceCutoff | src/trust.rs:232-378 | the accepting times of a lifecycle policy are exactly those from its start to one cutoff |
| TrustEvaluation.SignersStable | src/trust.rs:340-378 | when all revocations are in force, the decision is the same at every accepting time |
| TrustEvaluation.RevokedNeverMatches | src/trust.rs:136-378 | a public key revoked in some policy of a run never counts in that or any later policy, under any name and at any in-window time |
| TrustEvaluation.NamedRevocationHolds | src/trust.rs:182-206 | revoking a key by name keeps that public key from counting in every later policy of the run |
| Signature.EnvelopeRoundTrip | src/signature.rs:30-72 | a signature envelope written as JSON reads back exactly when it is valid |
| Signature.EnvelopeStrict | src/signature.rs:22-45 | only objects of the three declared members, none repeated, are read as envelopes |
| Signature.SigningMessageInjective | src/signature.rs:138-143 | equal signing messages come from equal capsules |
| Signing.SignThenAccept | src/signature.rs:75-143 | with a correct scheme the envelopes of `sign_capsule` are accepted for the signed capsule once enough distinct unrevoked policy keys signed it inside the window; under exactness, only then |
| Signing.SignaturesDoNotTransfer | src/trust.rs:242-258 | under exactness, envelopes made for one capsule are never accepted for another, whatever keys made them |
| Signing.AcceptedWasSigned | src/trust.rs:232-260 | if nothing unsigned verifies, acceptance of any signatures implies that at least the minimum of distinct unrevoked policy keys signed the domain followed by exactly these capsule bytes |
| Paths.SplitJoin | src/extraction.rs:213-221 | splitting joined slash-free components gives them back |
| Paths.JoinSplit | src/extraction.rs:213-221 | joining the components of a path gives it back |
| Paths.PortableInjective | src/extraction.rs:236-261 | two portable paths with the same components are the same text |
| Paths.PortableIff | src/extraction.rs:236-261 | a path is portable exactly when it has no backslash, colon or NUL and, from any base, lexical resolution of its components keeps every one of them |
| Extraction.Preflight | src/extraction.rs:184-234 | passes exactly when count and total size are within the limits, every path is portable, no path occurs twice and none is an ancestor of another; a failure names a real defect |
| Extraction.CollectPaths | src/extraction.rs:193-205 | the first loop computes the total and the path set, or names a bad, repeated or oversized payload |
| Extraction.FindConflict | src/extraction.rs:213-228 | the growing string prefix finds a conflict exactly when one path's components are a proper prefix of another's |
| Extraction.FileSystem.CreateDirAll | src/extraction.rs:153-154 | succeeds exactly when no prefix is a file, and adds exactly the missing directories |
| Extraction.FileSystem.CreateNew | src/extraction.rs:155-163 | creates a file exactly at a free path in an existing directory |
| Extraction.FileSystem.RenameNoReplace | src/extraction.rs:277-287 | moves the whole directory exactly when the destination is free |
| Extraction.FileSystem.WritePayloads | src/extraction.rs:144-164 | the payload loop computes the specified tree, or fails when it does |
| Extraction.WriteOneIff | src/extraction.rs:144-159 | one more payload can be written exactly when its path is unrelated to all earlier ones |
| Extraction.WriteAllIff | src/extraction.rs:144-164 | for every list and order, the loop in an empty directory completes exactly when paths are pairwise unrelated, and then holds exactly the payloads |
| Extraction.UnrelatedIffMaterializable | src/extraction.rs:193-228 | paths are pairwise unrelated exactly when the preflight's path checks hold |
| Extraction.PreflightExact | src/extraction.rs:122-234 | the preflight's path checks are exactly the condition under which the write loop cannot fail |
| Extraction.HoldsMap | src/extraction.rs:144-164 | the tree written is the old tree and exactly the payload files and their ancestor directories |
| Extraction.MovedTree | src/extraction.rs:166-168 | the rename publishes exactly the payload tree at the destination and leaves nothing of the staging directory |
| Extraction.PublishedBytes | src/extraction.rs:144-175 | every payload is published at its path with exactly its bytes |
| Extraction.TargetsResolve | src/extraction.rs:144-164 | every target that extraction writes resolves to itself, below the staging directory |
| Extraction.FileSystem.Publish | src/extraction.rs:166-168 | publishes exactly when nothing appeared at the destination, otherwise removes the staging directory |
| Extraction.FileSystem.Extract | src/extraction.rs:122-176 | succeeds exactly when the preflight holds, the destination is a free name in an existing directory, nobody takes it and the entrypoint path is portable; then the result is the old tree plus the payload tree, and a failure leaves nothing of it behind unless only the entrypoint path, looked at last, is bad |
| RunCommand.ValidateEnvironment | src/execution_cli.rs:284-309 | count, distinct names and total bytes, in that order |
| RunCommand.ParseOptionsFrom | src/execution_cli.rs:166-249 | the index loop computes the specified parse |
| RunCommand.ParseArguments | src/execution_cli.rs:142-270 | the parser is the specified function of the arguments |
| RunCommand.ParseIff | src/execution_cli.rs:142-327 | for every argument vector, the command accepted is exactly the one the vector asks for: known options with non-empty values, one policy, 1 to 64 signatures, one positional, each number given at most once and in range or else its default, and variables and arguments within the limits; anything else is rejected |
| RunCommand.ArgumentsFit | src/execution_cli.rs:311-327 | the argument limits are 256 arguments of 64 KiB put together |
| RunCommand.VariablesFit | src/execution_cli.rs:284-309 | the environment limits are 128 distinct names, and 64 KiB of names and values put together |
| RunCommand.ParsedIsValid | src/execution_cli.rs:142-327 | whatever the parser accepts is within every limit and has non-empty paths and distinct, well-formed variables |
| RunCommand.SplitOnce | src/execution_cli.rs:272-275 | splits at the first `=`, losing nothing, exactly when there is one |
| RunCommand.ParseSignatures | src/execution_cli.rs:184-191 | rendered signature options are read back in order, up to the limit |
| RunCommand.ParseNumbers | src/execution_cli.rs:192-230 | rendered limits and timeout are read back exactly when the timeout is in range |
| RunCommand.ParseEnvironment | src/execution_cli.rs:231-235 | rendered variables are read back split at their first `=`, exactly when every prefix passes the limits |
| RunCommand.ParsePositional | src/execution_cli.rs:167-172 | everything after `--` is taken verbatim, within the limits |
| RunCommand.ParseOfRender | src/hub_cli.rs:443-473 | the parser reads a rendered vector as the command with variables split at the first `=`, exactly when that is within the limits |
| RunCommand.RoundTripIff | src/execution_cli.rs:142-327 | rendering and parsing gives the same command exactly for the commands the parser can produce at the default output limit |
| Decimal.ParseOfPrint | src/hub_cli.rs:458-465 | a printed number is parsed back exactly when it fits |
| Json.LayoutExample | src/trust.rs:72-79 | the layout of pretty-printed documents on a schematic one: two spaces a level, one item a line, a final newline |
| Ordering.SortCanonical | src/hub_cli.rs:304-319 | two arrangements of the same elements both sort strictly, to the same sequence, or neither does |
| Ordering.SortStrictIff | src/hub_cli.rs:70-88 | after sorting, the strict-order check passes exactly when the keys are unique |
| Ordering.LessIff | src/hub_cli.rs:70-88 | the order is the lexicographic one: a proper prefix, or smaller at the first difference |
| HubRequest.CheckSignatureList | src/hub_cli.rs:58-88 | accepts exactly 1 to 64 valid envelopes in strictly increasing order |
| HubRequest.CheckHubEnvironment | src/hub_cli.rs:649-682 | accepts exactly well-formed variables with strictly increasing names within the limits |
| HubRequest.CheckHubArguments | src/hub_cli.rs:684-705 | accepts exactly arguments without NUL within the limits |
| HubRequest.ValidateRequest | src/hub_cli.rs:51-97 | accepts exactly the valid requests |
| HubRequest.RequestRoundTrip | src/hub_cli.rs:99-121 | a request's document reads back exactly when the request is valid |
| HubRequest.RequestFields | src/hub_cli.rs:38-49 | the document of a request is an object of the declared members, each found under its serde name with the request's value |
| HubRequest.RequestStrict | src/hub_cli.rs:38-121 | only objects of declared members, none repeated, are read as requests |
| HubRequest.RequestWithinLimits | src/hub_cli.rs:649-705 | a valid request passes every limit of the run command |
| HubRequest.RequestRendersExactly | src/hub_cli.rs:443-473 | for every valid request the run command reads back exactly its paths, limits, timeout, environment and arguments, if and only if no environment name contains `=` |
| HubRequest.RequestRendersSafely | src/hub_cli.rs:443-473 | whatever the names, a command that is read back has the request's paths, limits, timeout and arguments, and the same `NAME=VALUE` texts |
| HubRequest.EqualsInNameExample | src/hub_cli.rs:658-662 | a concrete valid request with `=` in a name that is not read back |
| HubCreate.ParseArguments | src/hub_cli.rs:226-294 | the index loop computes the specified parse |
| HubCreate.ReadAll | src/hub_cli.rs:305-318 | the signature files are read in order, failing on the first bad one |
| HubCreate.CreateRequest | src/hub_cli.rs:212-336 | writes, where the line's one `--output` says, the document of the request the line asks for; fails when the specified creation fails |
| HubCreate.ParseIff | src/hub_cli.rs:226-294 | for every command line, the parser ends exactly in the variables the line describes |
| HubCreate.CreateIff | src/hub_cli.rs:212-336 | for every command line, the request created is exactly the one the line asks for: its files' envelopes and its variables in sorted order, each number as given once or 300, 4096 and 1 GiB when omitted, the arguments after `--`; it fails exactly when the line asks for none |
| HubCreate.CreateOfRendered | src/hub_cli.rs:212-336 | the rendered creation command line of any valid request whose options can be written creates that request again |
| HubCreate.UpdatesCommute | src/hub_cli.rs:232-292 | two options may change places: both orders fit or neither, with the same effect up to order |
| HubCreate.ApplyAllPermuted | src/hub_cli.rs:226-294 | options in any order give the same parse up to the order of signatures and variables |
| HubCreate.ReadPermuted | src/hub_cli.rs:305-319 | reading permuted signature paths gives permuted envelopes |
| HubCreate.OptionsAndRest | src/hub_cli.rs:226-294 | every command line is its options followed by a rest: nothing, one argument without a value, or everything from `--` on |
| HubCreate.CreateCanonical | src/hub_cli.rs:226-330 | any two command lines whose options are the same up to order, with the same rest, create the identical request, or both fail |
| HubCreate.CreatedIsDelivered | src/hub_cli.rs:272-330 | every created request is valid and reads back from its document, and its command line is rendered and parsed back exactly |
| Capture.CaptureStream | src/execution_cli.rs:329-378 | the read loop computes the specified outcome |
| Capture.CaptureIff | src/execution_cli.rs:329-378 | without a read error, no error exactly when the stream fits the limit, and then the whole stream; always a prefix within the limit |
| Capture.CaptureKeeps | src/execution_cli.rs:329-378 | after a read error everything read before it is kept; past the limit, all chunks before the one that would pass it |
| Capture.ChunkingIrrelevant | src/execution_cli.rs:336-376 | the outcome does not depend on how the stream is split into reads |
| Runner.Execution.ReceiveUntil | src/execution_cli.rs:395-416 | the wait ends by the deadline, or at once when that has passed; there is no error exactly when the whole stream fitted the limit and arrived in time, and then it is returned whole |
| Runner.Execution.DrainBoth | src/execution_cli.rs:630-634 | both drains run against one deadline |
| Runner.Execution.WaitLoop | src/execution_cli.rs:589-623 | ends at the first poll that finds the child gone, fails, or is read at or after the deadline; terminates by the distance to the deadline |
| Runner.Execution.BlockingWait | src/execution_cli.rs:592-620 | blocks on the child only after the group was killed |
| Runner.Execution.Execute | src/execution_cli.rs:583-653 | the verdict is that of the first stopping poll; on every return the group was killed before anything blocked on the child or was drained, and again at the end, and the drains together wait at most a second |
| Runner.ReceivedIff | src/execution_cli.rs:329-416 | a drained capture has no error exactly when the whole stream fitted the limit and was delivered in time |
| Runner.SuccessIff | src/execution_cli.rs:583-653 | success exactly when no poll at or after the deadline found the child running, it exited with success and both streams were captured whole, which the report then holds; a timeout exactly when a poll at or after the deadline found the child running and it was reaped |
| Runner.ReportIff | src/execution_cli.rs:592-653 | when the status is nonzero and when it is a capture error, when waiting or reaping fails, and what the report then holds: the exit, and each stream whole or with its error |
| Runner.PollsBounded | src/execution_cli.rs:589-609 | the number of polls is bounded by the time to the deadline over the poll interval |
| HubRun.Host.ReadBounded | src/product_main.rs:876-921 | exactly what the private file holds, or what the caller-owned file holds at that look, when it is within the limit |
| HubRun.Host.ReadEnvelopes | src/execution_cli.rs:494-504 | the signature files are read in order, each at its own look, failing on the first bad one |
| HubRun.Host.ReadPolicy | src/execution_cli.rs:485-493 | a policy is returned exactly when the file is within the limit, decodes, validates and is a lifecycle policy |
| HubRun.Host.ReadCapsule | src/execution_cli.rs:471-483 | a capsule is returned exactly when the limit plus the metadata allowance fits, the file is within it and decodes |
| HubRun.Host.Authorise | src/hub_cli.rs:397-427 | computes the specified authorisation in every world, writing nothing |
| HubRun.AuthorisedIff | src/hub_cli.rs:397-427 | authorisation succeeds exactly when the three named files hold, each when looked at, a valid request, a decodable capsule within the request's limit plus 16 MiB below the largest `u64`, and a lifecycle policy that accepts the request's signatures |
| HubRun.Host.WriteSnapshots | src/hub_cli.rs:438-457 | the private directory holds exactly the authorised capsule, policy and signatures, each written as a new file |
| HubRun.SnapshotsPinned | src/hub_cli.rs:438-457 | every snapshot is there with its bytes: none is written over another |
| HubRun.Host.RenderOptions | src/hub_cli.rs:458-473 | the loop renders the limits, variables and arguments |
| HubRun.Host.Pin | src/hub_cli.rs:438-473 | the argument vector built step by step is the rendering of the delegated command, and the inputs are pinned |
| HubRun.EnvelopeSize | src/hub_cli.rs:451-454 | every valid signature envelope is written within the limit at which it is read |
| HubRun.SnapshotsRead | src/hub_cli.rs:429-441 | the delegated run reads back from the snapshots exactly the authorised capsule, policy and signatures, whatever the caller-owned files hold |
| HubRun.DelegatedIsDelivered | src/hub_cli.rs:443-475 | when the rendered arguments are read back at all, the command has the request's paths, limits, timeout and arguments, and the same variable texts |
| HubRun.Host.Materialize | src/execution_cli.rs:519-541 | an entrypoint is found exactly when the capsule passes the preflight under the limits and holds it, with the capsule's bytes for it |
| HubRun.Host.Prepare | src/execution_cli.rs:467-541 | computes the specified start, or none, in every world, writing nothing |
| HubRun.PreparedIsLawful | src/execution_cli.rs:467-541 | whatever the arguments and the world, only an entrypoint accepted under a lifecycle policy and materialised within the command's limits is started, with the capsule's bytes |
| HubRun.DelegatedRun | src/hub_cli.rs:429-475 | from the snapshots, the run command starts exactly what was authorised, checked again at its own time, or nothing if that check, the parser or the materialisation fails |
| HubRun.Host.Supervise | src/execution_cli.rs:583-653 | a run counts as a success exactly when the runner's verdict under the command's timeout and output limit is one |
| HubRun.Host.Run | src/execution_cli.rs:467-653 | starts exactly the prepared execution, if there is one, and succeeds exactly when that does |
| HubRun.Host.RunPinned | src/hub_cli.rs:429-494 | computes the specified outcome from the snapshots on, drops them, and writes at most the result |
| HubRun.Host.Publish | src/hub_cli.rs:490-494 | the result is written exactly when it fits and its path is free at that look, into files that are otherwise as found; else nothing is written |
| HubRun.Host.Execute | src/hub_cli.rs:338-495 | computes the specified outcome in every world; a result is written only where the last look found nothing, leaving every other file as found, and on any error the program writes nothing; what is written parses to an object of exactly the nine members, which describe the execution started |
| HubRun.StartedIsFaithful | src/hub_cli.rs:395-475 | in every world, whatever is started was authorised with the result path free, and is exactly what was authorised: capsule bytes, policy, signatures, limits, timeout, arguments and variables, all of which a process can be given |
| HubRun.StartedIff | src/hub_cli.rs:338-495 | an entrypoint is started exactly when the result path is free, the capsule is authorised, the rendered command is read back, the inner check accepts and the capsule materialises; and which error is returned otherwise |
| HubRun.PublishedIff | src/hub_cli.rs:338-495 | a result is published exactly when its path is free at the first and last look, the capsule is authorised, the command is read back, the inner check accepts again, the capsule materialises, the process succeeds and the document fits |
| HubRun.QuietRunPublishes | src/hub_cli.rs:338-495 | when nobody interferes, an authorised request without `=` in its names is run and its result published |
| HubRun.PublishedDescribesRun | src/hub_cli.rs:475-494 | in every world, a published result describes the execution that was started |
| HubRun.ResultDescribesRun | src/hub_cli.rs:477-489 | the result's capsule digest, name, entrypoint and policy digest describe exactly the executed bytes; with revocations in force its signers are those of the inner check, however the clock moved |
| HubRun.ResultFields | src/hub_cli.rs:125-149 | the document of a result parses to an object of exactly the nine members, each found by name with the result's value |
| HubRun.PublishedDocument | src/hub_cli.rs:477-494 | the published document is within 64 KiB and, member by member, describes the started execution: digest, name and entrypoint of the executed bytes, the policy's threshold, digest and revision, and with revocations in force the signers of the inner check |
| HubRun.HistoryPoliciesQualify | src/trust.rs:136-210 | every policy of every update history has its revocations in force and reads back from its document |
| Dsse.PaeIff | src/provenance.rs:412-427 | the pre-authentication encoding has a total decoder that inverts it and accepts nothing else |
| Dsse.PaeExample | src/provenance.rs:412-427 | the encoding of one small pair, written out |
| Dsse.PaeInjective | src/provenance.rs:412-427 | two pairs of type and payload with the same encoding are the same pair, for all byte strings |
| Dsse.DomainsSeparate | src/signature.rs:138-143 | no pre-authentication encoding is the message of a detached capsule signature |
| Dsse.SignStatement | src/provenance.rs:210-247 | the loop produces the specified envelope, or the first failing check |
| Dsse.SignIff | src/provenance.rs:210-247 | exactly statements of 1 byte to 1 MiB can be signed, with 1 to 64 keys that all load; the envelope carries the statement and, in order, each key's signature of its exact encoding |
| Dsse.DecodeAuthenticatedParts | src/provenance.rs:287-323 | the loop decodes payload and signatures as specified, with every check in order |
| Dsse.DecodePartsIff | src/provenance.rs:287-323 | payload and signatures are decoded exactly when the type is right, the counts and sizes are in range and every text is the canonical Base64 of what is returned |
| Dsse.VerifyForCapsule | src/provenance.rs:263-285 | the payload is parsed only after the threshold is met over its exact encoding, and its subject must name the capsule |
| Dsse.VerifyIff | src/provenance.rs:263-285 | an arbitrary envelope is accepted exactly when it decodes, the policy accepts its signatures over the exact encoding of its type and payload, the payload is a statement and some subject names the capsule |
| Dsse.VerifiedWasSigned | src/provenance.rs:263-285 | if nothing unsigned verifies, acceptance of any envelope implies that at least the minimum of distinct unrevoked policy keys signed the encoding of exactly its payload |
| Dsse.DecodeOfSealed | src/provenance.rs:242-323 | decoding a sealed envelope gives exactly its payload and signatures |
| Dsse.SignThenVerify | src/provenance.rs:210-285 | with a correct scheme a signed statement verifies whenever enough distinct unrevoked policy keys signed it in the window and a subject matches; if signatures verify under no other key, only then |
| Dsse.RepeatedKeysIrrelevant | src/provenance.rs:230-285 | repeating or reordering signing keys never changes the outcome |
| Dsse.SubjectPinsCapsule | src/provenance.rs:140-148 | two capsules matched by the same subject have the same SHA-256 value, whatever the letter case of the recorded digest |
| Dsse.AnySubject | src/provenance.rs:140-148 | any one of several subjects suffices |
| Dsse.OwnSubject | src/provenance.rs:140-148 | a capsule's own digest, in either letter case, names it |
| Base64.DecodeOfEncode | src/provenance.rs:238-244 | decoding what was encoded gives the bytes back |
| Base64.EncodeOfDecode | src/provenance.rs:296-312 | only the canonical text of some bytes is accepted |
| Base64.ExampleOne | src/provenance.rs:238-244 | one byte, as in section 10 of RFC 4648 |
| Base64.ExampleThree | src/provenance.rs:238-244 | three bytes, as in section 10 of RFC 4648 |
| Base64.ExampleHigh | src/provenance.rs:238-244 | the last two characters of the alphabet |
| Pack.PackPayloads | src/lib.rs:365-404 | the budget loop computes the specified payloads or the first error |
| Pack.PackedFits | src/lib.rs:393-402 | whatever the files do, the accounting errors are unreachable and what is packed passes the preflight's count and byte checks under the same limits |
| Pack.PackExact | src/lib.rs:365-404 | whatever the files report and hold, completes exactly when the mappings are within the limit and each fits, by its metadata and by its bytes, what the ones before it leave of the budget; then holds exactly what was read, in order |
| Pack.PackIff | src/lib.rs:365-404 | for readable, size-stable sources, completes exactly when count and total size are within the limits and the byte limit is below the largest `u64`, and then holds exactly the sources |
| Pack.OrderIrrelevant | src/lib.rs:378-404 | the order of the mappings changes neither completion nor which payloads are packed |

## Left out

- The `.scicap` container: a capsule is a name, an entrypoint and a list of paths and bytes, and
  its decoder is an arbitrary function; `scirust_capsule` is not part of this model.
- SHA-256, Ed25519, PEM and PKCS#8: arbitrary function values.
- Parsing and validating in-toto statements (URI syntax, predicate fields): an arbitrary function
  from payload bytes to the subjects' digests; it only decides whether a payload is a statement.
- The JSON form of DSSE envelopes and of provenance statements: no property here depends on it.
- JSON input the printer never produces in these documents: serde's array form of structs, and
  negative or fractional numbers, which the documents' types reject anyway; the check that input
  bytes are valid UTF-8 is not modelled.
- TrustLifecycle.UpdateTrustPolicyCommand: does not model the reading of key files or the
  refusal to overwrite the output; keys arrive as PEM texts.
- Extraction.FileSystem.Extract: does not model disk errors, file permissions, symbolic links or
  syncing; another process may only create something at the destination. The staging name
  is a parameter that is assumed unused, as the temporary-directory library guarantees.
- Extraction.FindConflict: iterates the path set in any order, so which of several conflicts is
  reported is left open.
- HubRun.Host.Execute: does not model the parsing of its own four options, or failures to create
  the private directory or write snapshots, or a clock before the Unix epoch; the directory's path
  is absolute. Reading a file is one atomic look at it.
- Runner.Execution.Execute: starts once the process-group guard exists; spawning, the file modes
  of the entrypoint and the threads themselves are events of an arbitrary environment. Time is in
  milliseconds.
- Pack.PackPayloads: stops before the capsule is built; the check that the name is not blank, the
  entrypoint path and the output file are not modelled.
- Parsing of the `pack`, `extract`, `sign`, `verify` and `attest` options: the same shape as the
  run command's parser.
- Hub component manifests, `hub_evidence_v2` and result formatting of `run`: no hard property.
