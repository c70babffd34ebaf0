# Verification of acton-service

A Dafny model of the logic at the heart of `acton-service`, with machine-checked proofs. Six parts:

- **Rotating client identity.** `ClientIdentity.dfy` holds the loaders, `IdentitySource.dfy` the source object
  with its two swappable cells, `Rotation.dfy` the concurrent step machine, `RotationSteps.dfy` what each of its steps
  does. `RotationTheorems.dfy` proves what every run keeps, `RotationHandshakes.dfy` what a handshake sees,
  `RotationConcurrency.dfy` what holds with several reloads at once; `RotationRuns.dfy` builds runs that show what a
  reload does alone and what can be observed in between. Foreign parsing and key checks are function parameters (`Crypto`), so the theorems hold for
  whatever they answer. Reloaders, handshakes and an environment that rewrites files interleave freely; every
  stored value carries the number of the load it came from, and every load records the bytes it read, so
  "the last good load" is computed from those bytes and not from the cells.
- **Caller authorization.** `CallerAuth.dfy` goes from configuration strings to a decision,
  `CallerAuthLayer.dfy` from a request to what the inner service sees, `CallerAuthTheorems.dfy` proves
  refinement, erasure, monotonicity and the end-to-end statement. A DER leaf is represented by what decoding
  it yields (`Leaf`).
- **Health checks.** `Checks.dfy` runs checks under one deadline for every poll schedule, `Readiness.dfy` is the
  probe handler, `ReadinessTheorems.dfy` what its answer shows, `AppState.dfy` the slot protocol that feeds it,
  `AppStateBuilder.dfy` the builder with its shared slots.
- **Retry** (`Retry.dfy`), with 32-bit and 64-bit overflow explicit, for builds with and without overflow checks.
- **Version paths** (`Versioning.dfy`).
- **Strings and maps**: `ChildName.dfy`, `Redaction.dfy`, `PemJoin.dfy`, `Responses.dfy`; `Text.dfy` and
  `Wrappers.dfy` are shared helpers.

`dafny verify dfyconfig.toml` checks everything.

## Where the code and an expectation differ

The model follows the code. Each of these is a lemma with the exact condition.

- The documentation of `ClientIdentitySource` says a half-applied rotation is never observable
  (acton-service/src/client_tls.rs:731-735). A handshake reads the key and the anchors at two moments, and with a
  single reloader it can see the new key with the old anchors (`HalfAppliedRotationIsObservable`) and the reverse
  (`ReversePairIsObservable`). `HandshakePairExactly` says, from the stores around its two reads, exactly when it
  sees one load, and otherwise which half is newer. A snapshot of both cells is mixed exactly between a reload's
  two stores, and then never the reverse way (`OnlyMixedPair`). With two reloads at once the mix can be permanent
  (`ConcurrentReloadsMayMix`); `ConcurrentPairExactly` gives the exact condition for any number of them.
- Base-path normalisation is idempotent, and gives a path that starts and does not end with a slash, exactly
  for paths with a non-slash character (`NormalizeExactly`): "" becomes "/" and "/" becomes "".
- The extractor returns the mounted version exactly when the base's first segment beginning with v or V, if any,
  spells that version (`RoundTripExactly`); "/vendor" hides every version.
- A not-ready answer can list only healthy dependencies. It always lists an unhealthy one exactly when check names
  are distinct and none is the name of a configured required backend (`CauseShownExactly`).
- Redaction is independent of the user info exactly when that holds no "@" (`RedactsExactly`), and idempotent exactly
  when no "@" precedes the first "://" (`IdempotentExactly`). The query of a URL with a token gives way to
  the marker exactly when neither host nor query holds an "@", or the URL was redacted already
  (`TokenRedactedExactly`): user info makes the token survive (`UserInfoKeepsTheToken`).
- The joined PEM keeps both documents' lines exactly when the certificate is not empty (`JoinKeepsLinesExactly`).
- The backoff never overflows exactly under `SafeBackoff`; past it a checked build panics. An unchecked build panics
  when base * 2^(a-1) leaves 64 bits at some failure a <= 32, and otherwise does not sleep from the 33rd failure on.

## Model

| member | source | states |
|---|---|---|
| `ClientIdentity.PrepareSucceedsExactly` | acton-service/src/client_tls.rs:170-300 | preparation succeeds exactly when certificate, key and CA all validate, and then yields exactly the certificate file's chain under the key file's signing key, and exactly the built-in roots, every certificate of the CA bundle, or both |
| `ClientIdentity.PrepareErrorsExactly` | acton-service/src/client_tls.rs:170-300 | each load error, exactly by what is wrong with the files |
| `IdentitySource.ClientIdentitySource.FromConfig` | acton-service/src/client_tls.rs:777-807 | a source presenting a usable identity exactly when everything validates and the HTTP client builds, then holding exactly the credentials of the files; otherwise the error of the first step that failed and no source |
| `IdentitySource.ClientIdentitySource.Reload` | acton-service/src/client_tls.rs:844-894 | all or nothing: both cells take exactly the credentials of the files, seen through every configuration that shares them, or neither changes |
| `IdentitySource.ClientIdentitySource.TlsConfigWithAlpn` | acton-service/src/client_tls.rs:920-924 | a transport's configuration shares the source's two cells, under its own protocol list |
| `IdentitySource.ClientIdentitySource.Resolve` | acton-service/src/client_tls.rs:362-382 | a handshake is always given some key, and a usable one |
| `Rotation.LastGood` | acton-service/src/client_tls.rs:844-894 | the index of the last attempt whose files all validate: it validates and none after it does |
| `RotationSteps.BuildVerifierEffect` | acton-service/src/client_tls.rs:888-894 | the step that ends a preparation succeeds or fails exactly as the one-shot preparation of the bytes read, though they were read at different moments |
| `RotationSteps.ReadEffect` | acton-service/src/client_tls.rs:170-276 | a preparation step touches nothing but its own phase, and records validating files if it goes on, non-validating ones if it gives up |
| `RotationTheorems.StepKeepsInv` | acton-service/src/client_tls.rs:333-382 | every step of every thread keeps both cells, all phases and all handshake logs traceable to validated loads |
| `RotationTheorems.EveryReadIsUsable` | acton-service/src/client_tls.rs:333-432 | in every interleaving every key a handshake resolved and every verifier it consulted is usable |
| `RotationTheorems.EveryHandlePresentsAnIdentity` | acton-service/src/client_tls.rs:362-382 | in no reachable state does any handle present nothing |
| `RotationTheorems.HandlesNeverChange` | acton-service/src/client_tls.rs:795-817 | the source, the cached client and every connector point at the same two cells for the whole run |
| `RotationTheorems.StepKeepsSerialInv` | acton-service/src/client_tls.rs:844-894 | with one reload at a time each step keeps the relation between cells, phase and attempts |
| `RotationTheorems.QuiescentPairIsLastGood` | acton-service/src/client_tls.rs:844-894 | between reloads the installed pair is that of the last load that validated, or the initial one |
| `RotationTheorems.FailedReloadsChangeNothing` | acton-service/src/client_tls.rs:873-883 | any number of failed reloads leave both cells exactly as they were |
| `RotationTheorems.OnlyMixedPair` | acton-service/src/client_tls.rs:848-859 | a snapshot of both cells is mixed exactly between a reload's two stores, and then shows the new key with the previous anchors |
| `RotationTheorems.LoadsNeverGoBack` | acton-service/src/client_tls.rs:858-859 | with serial reloads the load number in either cell never decreases along a run |
| `RotationTheorems.StoresRaiseLoads` | acton-service/src/client_tls.rs:858-859 | with serial reloads each store strictly raises its own cell's load and nothing else touches that cell |
| `RotationHandshakes.HandshakeSeesTheInstalledPair` | acton-service/src/client_tls.rs:725-735 | a handshake no store cuts through reads exactly the last good pair through any handle, however often it reads, also while reloads read files and fail |
| `RotationHandshakes.HandshakeAfterReloadSeesIt` | acton-service/src/client_tls.rs:825-872 | from a reload's return to the next store, handshakes read that reload's own pair |
| `RotationHandshakes.HandshakePairExactly` | acton-service/src/client_tls.rs:848-859 | with serial reloads, exactly when a handshake's key and anchors come from one load, when the anchors are newer and when the key is, from the stores around its two reads |
| `RotationConcurrency.SameLoadExactly` | acton-service/src/client_tls.rs:844-859 | with any number of reloads at once, a key store and a verifier store carry one load exactly when one call of reload made both |
| `RotationConcurrency.ConcurrentPairExactly` | acton-service/src/client_tls.rs:848-859 | with any number of reloads at once, exactly when a key and anchors read at any two moments come from one load |
| `RotationRuns.ExecIsRun` | acton-service/src/client_tls.rs:844-894 | every execution from an initial state is a run, so the run theorems apply to it |
| `RotationRuns.UninterruptedReload` | acton-service/src/client_tls.rs:844-894 | run alone, the stepwise reload installs exactly what the one-shot preparation makes of the disk |
| `RotationRuns.UninterruptedFailure` | acton-service/src/client_tls.rs:873-894 | run alone on files that do not validate, it ends without reaching a store and leaves only the record of what it read |
| `RotationRuns.DerivedHandleSeesTheSource` | acton-service/src/client_tls.rs:920-924 | in every reachable state a connector can be derived, and a handshake through it reads the source's own cells |
| `RotationRuns.HalfAppliedRotationIsObservable` | acton-service/src/client_tls.rs:848-859 | one reloader suffices for a handshake to see the new key with the old anchors |
| `RotationRuns.ReversePairIsObservable` | acton-service/src/client_tls.rs:848-859 | one reloader suffices for a handshake to see the old key with the new anchors |
| `RotationRuns.ConcurrentReloadsMayMix` | acton-service/src/client_tls.rs:844-872 | two concurrent reloads can leave one's key with the other's anchors after both returned |
| `PemJoin.ConcatIdentityPem` | acton-service/src/client_tls.rs:148-159 | the buffer's lines are the certificate's then the key's, exactly when the certificate is not empty |
| `PemJoin.JoinKeepsLinesExactly` | acton-service/src/client_tls.rs:131-159 | the same law, for all buffers, in both directions |
| `PemJoin.TrailingNewlineIsImmaterial` | acton-service/src/client_tls.rs:149-157 | a certificate file with and without its final newline gives the same result |
| `CallerAuth.ExtractNames` | acton-service/src/caller_auth.rs:774-809 | the loop collects exactly the usable DNS and URI names, under their own kinds and in order, or reports a malformed certificate |
| `CallerAuth.UsableExactly` | acton-service/src/caller_auth.rs:791-806 | a DNS name stands for the Dns caller of that value and a URI for the Uri one, exactly when the value is usable |
| `CallerAuth.ByteLengthExactly` | acton-service/src/caller_auth.rs:188-193 | the length limit counts UTF-8 bytes |
| `CallerAuth.IllegalExactly` | acton-service/src/caller_auth.rs:197-202 | the refused characters, as one list of ranges |
| `CallerAuthTheorems.NewSanExactly` | acton-service/src/caller_auth.rs:184-204 | a name is built exactly from a non-empty value of at most 1024 bytes without wildcard, whitespace or control characters; otherwise exactly which error |
| `CallerAuthTheorems.FromEntriesExactly` | acton-service/src/caller_auth.rs:279-320 | an allowlist exactly when non-empty and all entries usable, then the set of names they stand for; else the first unusable entry |
| `CallerAuthTheorems.AllowlistDependsOnlyOnTheSet` | acton-service/src/caller_auth.rs:298-325 | order and repetition of entries make no difference |
| `CallerAuthTheorems.CertificateIsFirstMatch` | acton-service/src/caller_auth.rs:740-809 | admission as the earliest usable allowlisted name, refusal naming the earliest usable name, no usable name: each if and only if |
| `CallerAuthTheorems.MtlsExactly` | acton-service/src/caller_auth.rs:702-809 | in mtls mode every answer and every refusal, exactly, from the raw leaf and the allowlist |
| `CallerAuthTheorems.UnusableExactly` | acton-service/src/caller_auth.rs:791-806 | which general names are skipped |
| `CallerAuthTheorems.Erasure` | acton-service/src/caller_auth.rs:697-809 | inserting or deleting an unusable general name anywhere changes no decision in any mode |
| `CallerAuthTheorems.Cutover` | acton-service/src/caller_auth.rs:702-738 | mtls-or-bearer keeps every mtls admission, defers to every bearer otherwise, and without one refuses alike up to the missing-certificate error |
| `CallerAuthTheorems.BearerNeverHurts` | acton-service/src/caller_auth.rs:702-738 | adding a bearer to an admitted request changes neither the admission nor the name |
| `CallerAuthTheorems.AllowlistMonotone` | acton-service/src/caller_auth.rs:740-762 | a larger allowlist never turns admission into refusal |
| `CallerAuthTheorems.PolicyFromConfig` | acton-service/src/config.rs:1098-1125 | which sections make a policy, that it carries exactly the configured mode, names and paths, and which error the others give |
| `CallerAuthTheorems.CertificateAdmission` | acton-service/src/caller_auth.rs:697-762 | admission by certificate, said over configuration strings and raw general names alone |
| `CallerAuthTheorems.AdmittedNamesParseBack` | acton-service/src/caller_auth.rs:165-204 | an admitted name is one of the configured strings and parses back to itself, kind included |
| `CallerAuthTheorems.ExemptExactly` | acton-service/src/caller_auth.rs:994-1012 | a path is exempt exactly when it begins with a configured public path or is an infrastructure path of the style |
| `CallerAuthTheorems.BearerOfAnyCase` | acton-service/src/caller_auth.rs:1055-1064 | a lone "Bearer x" header in any letter case is a credential |
| `CallerAuthTheorems.EndToEnd` | acton-service/src/caller_auth.rs:955-1012 | over configuration strings, path prefixes and header text: exactly which requests are forwarded, with which identity, and with which error the others are refused |
| `CallerAuthTheorems.InnerServiceSees` | acton-service/src/caller_auth.rs:850-854 | an identity reaches the inner service exactly when a guarded request was admitted by certificate, and waives the bearer exactly when, besides, the mode is mtls-or-bearer |
| `CallerAuthLayer.CallerAuthService.Call` | acton-service/src/caller_auth.rs:955-992 | the layer's effect on the request is the verdict: identity inserted, left alone, or refusal |
| `CallerAuthLayer.IsBearerExactly` | acton-service/src/caller_auth.rs:1055-1064 | a bearer header is the letters of "bearer" in either case, a space, and something after it, all visible |
| `Checks.ReportInRegistrationOrder` | acton-service/src/checks.rs:156-175 | under every schedule that resolves all checks, one outcome per check, with its name, in registration order, each decided by the first of that check's own polls to answer or meet the deadline |
| `Checks.ChecksAreIndependent` | acton-service/src/checks.rs:156-175 | under every schedule each outcome is what that check's own polls give |
| `Checks.AloneExactly` | acton-service/src/checks.rs:168-171 | a check's outcome is that of its first poll with an answer or at the deadline, and it is pending exactly if there is none |
| `Checks.AnswerBeforeDeadlineIsKept` | acton-service/src/checks.rs:168-171 | an answer given before the deadline is the outcome |
| `Checks.NeverReadyTimesOut` | acton-service/src/checks.rs:153-171 | a check that never answers is pending before the deadline and Unready("check timed out") after |
| `Checks.CompleteExactly` | acton-service/src/checks.rs:156-175 | nothing is pending exactly when each check answered or was polled at or after the one shared deadline |
| `Checks.InterleavingIsImmaterial` | acton-service/src/checks.rs:164-175 | schedules that agree check by check give the same report |
| `Checks.OutcomesAreFinal` | acton-service/src/checks.rs:164-175 | further polls change no outcome |
| `Checks.StalledCheckFailsLiveness` | acton-service/src/checks.rs:135-140 | a stalled liveness check turns liveness off |
| `Readiness.CheckBackend` | acton-service/src/health.rs:88-159 | the block repeated per backend: one entry with its health and text, and the flag cleared exactly for a failing required backend |
| `Readiness.ReadinessProbe` | acton-service/src/health.rs:79-649 | ready exactly when every configured required backend answers and no check is unready; the map shows, per name, the last check's health and own message, else the backend's, and nothing else |
| `Readiness.ReadyExactly` | acton-service/src/health.rs:79-634 | the same for the write list, which also gives independence from order |
| `Readiness.FoldKeepsLastWrites` | acton-service/src/health.rs:611-634 | the map holds exactly the written names, each with its last status |
| `ReadinessTheorems.ReadyIgnoresOrder` | acton-service/src/health.rs:611-634 | the answer ignores registration order |
| `ReadinessTheorems.MapIgnoresOrder` | acton-service/src/health.rs:611-634 | with distinct names so does the whole map |
| `ReadinessTheorems.CauseShownExactly` | acton-service/src/health.rs:79-649 | not-ready always lists an unhealthy dependency exactly when names are distinct and shadow no required backend |
| `ReadinessTheorems.StalledCheckIsNotReady` | acton-service/src/health.rs:607-634 | a check stalled under any schedule makes the probe not ready, and its entry says it timed out |
| `AppState.StepKeepsInv` | acton-service/src/state.rs:693-858 | each builder step and task end keeps every slot at what its kind and its task's progress prescribe |
| `AppState.BuildFailsExactly` | acton-service/src/state.rs:704-858 | in every interleaving the build fails exactly when a configured, non-provided, eager, required backend cannot connect, with the first one's error |
| `AppState.SlotsOnlyFill` | acton-service/src/state.rs:709-733 | a filled slot keeps its value, and only lazy slots ever change |
| `AppState.LazySlotIsWrittenOnce` | acton-service/src/state.rs:709-733 | a slot that changed went once from empty to the connected pool and stays there |
| `AppState.EmptyRequiredSlotIsNotReady` | acton-service/src/health.rs:123-158 | a required configured backend whose slot is empty when read, or at any later moment, means not ready, whenever the other slots are read |
| `AppState.FailedLazyBackendIsNeverReady` | acton-service/src/state.rs:716-731 | a required lazy backend that cannot connect is no cause of a failed build, but at whatever moments the slots are read the answer is not ready |
| `AppState.VisitedExactly` | acton-service/src/state.rs:704-752 | visiting a backend fails exactly as it must, else leaves the provided pool, the connected one, or nothing |
| `AppState.SettledSlots` | acton-service/src/state.rs:693-858 | once all tasks ended, each slot holds for good the provided pool, the connected one, or nothing |
| `AppState.SettledReadinessExactly` | acton-service/src/state.rs:693-887 | once all tasks ended, whenever the slots are read, ready is possible exactly when every required backend connected or was provided |
| `AppStateBuilder.VisitBackend` | acton-service/src/state.rs:704-752 | the block repeated per backend: slot contents, spawned task, or the error |
| `AppStateBuilder.Build` | acton-service/src/state.rs:693-887 | early return with the first failing backend's error, otherwise three distinct shared slots and one task per lazy backend |
| `AppStateBuilder.EndTask` | acton-service/src/state.rs:714-731 | a task fills the shared slot on success and leaves it alone on failure |
| `AppStateBuilder.BuildAndSettle` | acton-service/src/state.rs:693-887 | a build and its tasks, ended in any order, are a run of the slot protocol: the same failure, or slots that a clone made earlier sees settled |
| `AppStateBuilder.TaskMayEndDuringTheBuild` | acton-service/src/state.rs:709-733 | a lazy backend's task may fill its slot before the build goes on |
| `Retry.PowerExactly` | acton-service/src/database.rs:55-57 | the multiplier is the true power where 32 bits hold it, then none in a checked build and the power modulo 2^32 otherwise |
| `Retry.CreatePoolWithRetries` | acton-service/src/database.rs:22-70 | at most max_retries + 1 attempts, first success or last error, exact total sleep, and exactly when arithmetic panics |
| `Retry.Backoff` | acton-service/src/database.rs:55-57 | each delay extends the closed-form sum base * (2^k - 1) |
| `Retry.NoOverflowExactly` | acton-service/src/database.rs:55-57 | neither the power nor the product overflows exactly when retries <= 32 and base * 2^(retries-1) fits |
| `Retry.SafeBackoffIgnoresProfile` | acton-service/src/database.rs:55-57 | within that bound both ways of compiling compute the same delays |
| `Versioning.ParseExactly` | acton-service/src/versioning.rs:72-84 | the accepted language: any v's of either case, then the version's digit |
| `Versioning.NormalizeExactly` | acton-service/src/versioning.rs:493-503 | well-formed and idempotent exactly for paths with a non-slash character |
| `Versioning.NormalizeKeepsThePath` | acton-service/src/versioning.rs:493-503 | the path without its trailing slashes, with one leading slash added exactly if it lacks one |
| `Versioning.MountExactly` | acton-service/src/versioning.rs:742-748 | a mount is the base as it stands, if any, then "/v" and the digit |
| `Versioning.FirstVersionLikeExactly` | acton-service/src/versioning.rs:343-348 | the segment looked at is the earliest that begins with v or V |
| `Versioning.ExtractOnMount` | acton-service/src/versioning.rs:343-348 | what the extractor answers on every mounted path, whatever the base |
| `Versioning.RoundTripExactly` | acton-service/src/versioning.rs:343-348 | the round trip through mount and extractor, with its exact condition on the base |
| `Versioning.VendorBaseHidesTheVersion` | acton-service/src/versioning.rs:343-348 | a base on which the round trip fails for every version and suffix |
| `Versioning.MountsAreNotNested` | acton-service/src/versioning.rs:742-748 | mounts of distinct versions are never segment-prefixes of each other |
| `Versioning.RoutingAgreesWithExtraction` | acton-service/src/versioning.rs:742-748 | a path lies under at most one version's mount, and the extractor names that version |
| `Versioning.VersionedApiBuilder.WithBasePath` | acton-service/src/versioning.rs:493-503 | stores the normalised base, well-formed exactly when the path has a non-slash character |
| `Versioning.VersionedApiBuilder.BuildRoutes` | acton-service/src/versioning.rs:742-748 | one mount per registered version, in order, at the base followed by "/v" and its digit |
| `ChildName.NameExactly` | acton-service/src/extensions.rs:176-192 | the name is the first 48 permitted characters after the last "::", or "extension", then a hyphen and the index |
| `ChildName.DecimalReadsBack` | acton-service/src/extensions.rs:187-191 | the index is printed as its decimal numeral, without leading zeros |
| `ChildName.NamesAreUnique` | acton-service/src/extensions.rs:176-192 | distinct indices give distinct names for any two type names |
| `ChildName.NamesUsePermittedCharacters` | acton-service/src/extensions.rs:176-192 | every character is permitted in a name part |
| `ChildName.NamesFitExactly` | acton-service/src/extensions.rs:170-192 | every type name stays within 63 characters exactly when the index has at most 14 digits |
| `Redaction.RedactsExactly` | acton-service/src/error.rs:250-257 | the result is the same for all user infos exactly when they hold no at-sign |
| `Redaction.IdempotentExactly` | acton-service/src/error.rs:250-265 | redacting twice is redacting once, except exactly when an at-sign precedes the scheme's end |
| `Redaction.NothingToRedact` | acton-service/src/error.rs:250-265 | a URL without credentials is shown as it is |
| `Redaction.TokenRedacted` | acton-service/src/error.rs:260-263 | a URL whose query contains "authToken=" or "auth_token=" keeps only what precedes the query, unless it holds both "@" and "://" |
| `Redaction.TokenRedactedExactly` | acton-service/src/error.rs:252-263 | on scheme://host?query with a token, the query gives way to the marker exactly when host and query hold no at-sign, or the URL was redacted already |
| `Redaction.UserInfoKeepsTheToken` | acton-service/src/error.rs:252-258 | with user info in front, every token in the query survives |
| `Responses.TotalRemove` | acton-service/src/responses.rs:306-308 | the sum over fields does not depend on the order of the map |
| `Responses.ForFieldExactly` | acton-service/src/responses.rs:284-298 | a field's list is exactly the calls that named it, in call order |
| `Responses.RecordsAdded` | acton-service/src/responses.rs:284-298 | adding one error keeps every field's list equal to its own calls in order |
| `Responses.ValidationError.AddFieldError` | acton-service/src/responses.rs:284-298 | appends to its field's list and to nothing else, keeping the record of all calls |
| `Responses.ValidationError.HasErrors` | acton-service/src/responses.rs:301-303 | true exactly after at least one call |
| `Responses.ValidationError.ErrorCount` | acton-service/src/responses.rs:306-308 | the number of calls, however they fall over the fields |

## Left out

- The text of a failed probe (`Failed`) is taken as formatted; which library error it quotes is not modelled.
- Reading one file is one step: a rewrite in the middle of a single read is not modelled, only between reads.
- X.509 and PEM parsing, signature checks and the handshake cryptography are parameters; that a verifier built
  from given anchors verifies correctly is the library's promise.
- How the HTTP client is built (whether it builds is a parameter of `FromConfig`) and the choice of a crypto provider.
- The one-shot loaders (`load_rustls_client_config`, `reqwest_client_builder`, `tonic_client_tls_config` and its
  snapshot form) and the gRPC connector's dialling and timeouts.
- Wire shapes of refusals, status codes, logging, metrics and tracing.
- `validate_listener` and the listener sections: one match on two values.
- axum's own routing, deprecation headers, frontend routes and fallbacks; mounting the same version twice, which
  axum rejects.
- Lower-casing outside ASCII in version parsing: no such character maps to "v" or a digit, so no answer changes.
- Replacing a state's slots by agent storage, and the agents that fill the Turso, SurrealDB and ClickHouse slots.
- Cooperative-scheduling budgets of the async runtime; a poll looks at the check, then at the deadline.
- `sanitize_connection_url` and the error categories in the database module, pool metrics, and the retry loops of
  the other five backends, which repeat this one.
- Configuration merging and defaults.
