# NetShare Player: verified models of the server state

This project models the stateful core of NetShare Player and proves what it promises
over whole runs: the split, encrypted configuration, the upload and pairing protocols,
the rate limiters, the recency histories, the authenticator, GPU probing, log redaction
and file fingerprints.  `dafny verify dfyconfig.toml` checks all of it.

How it is built:

- One module per part of the program.  A *step function* gives the effect of one
  lock-protected section on a value of the module's state; a class with the original's
  fields and control flow is proved, method by method, to take exactly that step.
- The theorems are about every sequence of steps.  They compare the stored state with a
  reference that has no stored state: the sequence of events itself, an unpruned history,
  a plain set, a cache-free detection, or one kept value.
- Clock readings, random draws, file and vault failures, subprocess results and hashes
  are parameters.  Where the original relies on a fact about one of them, the theorem
  states it (a hash without collisions, a digest of twenty bytes, a clock that does not
  run backwards); where it does not, it is left open.
- A crash in the middle of a save is a save whose later writes fail, followed by a stop;
  `AtomicSave` takes the file system's own steps apart, for both files a save may write.
- Each section under a lock is one step, and `time.time()` and `time.monotonic()` read
  a `real`.

| file | models |
|---|---|
| `ConfigDocument.dfy` | the protected globals, their saved form and the loader |
| `ConfigStore.dfy` | files, vault and memory as one machine; its refinement to one kept value |
| `ServerState.dfy` | the functions that load, merge, save and reload, statement by statement |
| `AtomicSave.dfy` | concurrent savers and crashes around the temporary-file-and-rename sequence |
| `Passwords.dfy` | credentials, clear-text passwords and the migration between them |
| `UploadGrants.dfy` | public-upload requests and single-use grants |
| `WritePairing.dfy` | the one-time code with two redemption routes, and bearer tokens |
| `TrustedDevices.dfy` | device credentials, migration of devices, one-shot challenges |
| `RateLimits.dfy` | the three sliding-window limiters |
| `FolderHistory.dfy`, `StableSort.dfy` | the truncated recency lists and the stable sort they use |
| `HiddenPaths.dfy` | the sorted lists of hidden folders and their loader |
| `Totp.dfy` | the fallback authenticator (RFC 4226 section 5.3, RFC 6238 section 4.2) |
| `GpuProbe.dfy` | probing under one time budget and the one-executable cache |
| `Redaction.dfy` | structured redaction and the logger |
| `Fingerprint.dfy` | streaming digests |
| `PyText.dfy`, `PyDict.dfy`, `Wrappers.dfy` | Python string and dict operations; options and results |

## Where the code does less than one might expect

Each of these is a theorem that says exactly when the code keeps the promise, or a
concrete run in which it does not.

- The clock of the general limiter is read before its lock is taken.  A stalled caller
  with an old reading can be the 121st admitted call of a window
  (`RateLimits.StaleReadingBreaksCap`).  The stored list is shorter than the window
  exactly when some call of it was overtaken by more than a window in between
  (`RateLimits.StoredMissesIff`); while that never happens the cap holds
  (`RateLimits.CapUnlessForgotten`).
- A check-then-record limiter overshoots by the number of callers in flight minus one,
  and the bound is reached (`RateLimits.BoundIsReached`).
- An upload request is accepted after its two minutes are over unless someone looked it
  up in between (`UploadGrants.AcceptedIffFirst`, `UploadGrants.LateAcceptanceExample`).
- A truncated history equals the start of the full one except when a kept entry is
  shared with a time older than the first entry cut off (`FolderHistory.ShareShowsIff`,
  and a run of 102 shares in `FolderHistory.OldShareShows`).
- A hidden path that ends in whitespace does not come back from a restart
  (`HiddenPaths.ReloadIff`, `HiddenPaths.TrailingBlankRun`).
- A load does not see the last save when the primary file could not be written but an
  older one can be read (`ConfigStore.LoadSeesLastSaveIff`, `ConfigStore.UnseenSaveRun`).
- A comment in `_save_config` rules out clear-text secrets beside a configured vault;
  they are written when protecting them fails and the vault cannot be asked a second
  time (`ConfigStore.PublicCleanIff`, `ConfigStore.ClearTextRun`).
- A start that opens the vault but cannot decrypt the sidecar overwrites it with blank
  globals, unless its save fails to seal (`ConfigStore.StartKeepsSecretsIff`,
  `ConfigStore.BlindStartRun`); so does a save after a failed reload
  (`ConfigStore.SaveAfterUnlockKeepsSecretsIff`, `ConfigStore.StaleSaveRun`).
- A start that gives the password migration up, but then saves, forgets a clear-text
  password: saves leave clear text out (`ConfigStore.PlainPasswordSurvivesIff`).  It
  takes no failing file for that: hashing refuses a password that is too short, and one
  refused password keeps the other from being migrated as well
  (`ConfigStore.RefusedPasswordIsForgotten`, `Passwords.MigratesIff`).
- A temporary file stays behind without any crash when writing or renaming it fails and
  removing it fails too, an error that is swallowed (`AtomicSave.LeftBehindIff`,
  `AtomicSave.LeftoverRun`).
- Before the epoch every non-empty write token validates (`WritePairing.ValidationIff`).
- Migration drops a clear-text password beside an existing credential that does not know
  it (`Passwords.MigrationKeepsAcceptanceIff`).
- A remembered "not declared" hides an encoder that has appeared since
  (`GpuProbe.RepeatIsFreshIff`, `GpuProbe.NewEncoderStaysHidden`).
- The protected and the public part on disk can come from two interleaved saves
  (`AtomicSave.PartsCanDiffer`): exactly when the saver that sealed last is not the one
  that renamed last (`AtomicSave.PartsOfOneSaveIff`).  Saves that do not overlap, and in
  which no write fails, keep them together (`AtomicSave.SerialSavesTogether`).
- A fallback file written before there was a vault keeps its clear-text secrets until a
  save replaces it (`ConfigStore.FileShowsSecretsIff`, `ConfigStore.OldFallbackRun`).

## Model

| member | source | states |
|---|---|---|
| `ConfigStore.RunsKeepSecrets` | src/state.py:108-303 | over every run of starts, settings, saves, locks, unlock-and-reloads and stops, with any failing file writes, the files, documents and merging refine one kept value: the sidecar always holds exactly that value's protected fields, the document a load reads never holds a protected field, and memory is what the reference says |
| `ConfigStore.StepRefines` | src/state.py:207-286 | one step of that refinement, for every kind of step |
| `ConfigStore.BootRefines` | src/state.py:289-303 | the start, with automatic unlock or without, including the import-time save with its random secret, refines the reference start |
| `ConfigStore.StartFromDocument` | src/state.py:289-303 | a start that cannot read a sidecar, for whatever reason, has the globals of the public document |
| `ConfigStore.ReloadWithoutSidecar` | src/state.py:512-526 | a reload without a sidecar takes the public document; one that cannot read the sidecar changes no global |
| `ConfigStore.MigrationKeepsSettings` | src/state.py:289-301 | migration replaces the primary file and nothing else, with every unprotected setting kept, or is given up |
| `ConfigStore.SaveRefines` | src/state.py:252-286 | with a configured vault a save leaves the readable document without protected fields and changes the sidecar exactly when it seals |
| `ConfigStore.SidecarIsLastSealed` | src/state.py:252-263 | after any run, from any files and vault and whatever failed in it, the sidecar holds the protected globals there were right after the last step that sealed, and is untouched when none sealed |
| `ConfigStore.UnlockAfterLockedRun` | src/state.py:512-566 | after any number of locked saves, settings and restarts, whatever failed in them, the sidecar is what it was, and an unlock with reload brings its globals back as the loader normalises them |
| `ConfigStore.LockedRunKeeps` | src/state.py:252-270 | the reference value cannot change while the vault stays locked |
| `ConfigStore.FirstUnlockedSaveIff` | src/state.py:252-286 | exactly when a first sealing save establishes the refinement: its public part reaches the readable document, or that was clean already |
| `ConfigStore.LoadSeesLastSaveIff` | src/state.py:125-132 | exactly when the next load returns the document just written; otherwise it returns what it did before |
| `ConfigStore.LoadSeesSettings` | src/state.py:207-286 | with any vault and any faults the next load finds the saved value of every setting that is not protected, if the write lands in the file it reads, and else what it found before |
| `ConfigStore.SettingsStep` | src/state.py:207-303 | what every step leaves of those settings in memory and in the document a load would find |
| `ConfigStore.SettingsSurvive` | src/state.py:207-303 | over every run without a setter, whatever fails and whatever the vault does, they stay what they were |
| `ConfigStore.RestartKeepsSettings` | src/state.py:207-303 | save, stop and start bring them back, with and without a vault |
| `ConfigStore.UnseenSaveRun` | src/state.py:125-132 | a run from an empty disk in which a setting reaches the fallback file only and the next load misses it |
| `ConfigStore.PublicCleanIff` | src/state.py:252-275 | exactly when a save with a configured vault writes protected fields in the clear |
| `ConfigStore.ClearTextRun` | src/state.py:252-275 | a run from an empty disk that leaves the authenticator secret in the public document beside a configured vault |
| `ConfigStore.FileShowsSecretsIff` | src/state.py:125-286 | after any run with a vault, exactly which of the two files holds protected fields in the clear: one that did before and that no save replaced |
| `ConfigStore.OldFallbackRun` | src/state.py:281-286 | a first start that could only write the fallback file leaves the authenticator secret there, whatever saves reach the primary file later |
| `ConfigStore.StartKeepsSecretsIff` | src/state.py:303-611 | a start keeps the vault's secrets exactly when it does not unlock, or decrypts, or its save does not seal |
| `ConfigStore.BlindStartRun` | src/state.py:303-611 | a run from an empty disk whose restart cannot decrypt the sidecar and seals blank globals over it |
| `ConfigStore.SaveAfterUnlockKeepsSecretsIff` | src/state.py:512-526 | a save after an unlock keeps the vault's secrets exactly when the reload could read them or the save does not seal; otherwise the globals that were not reloaded are sealed over them |
| `ConfigStore.StaleSaveRun` | src/state.py:512-526 | a run from an empty disk in which a save after a failed reload seals stale globals |
| `ConfigStore.RestartWithVault` | src/state.py:207-303 | save, stop and start with an open vault give the protected globals back as the loader normalises them, whatever writes of the public document fail |
| `ConfigStore.RestartWithoutVault` | src/state.py:207-303 | the same without a vault, through the public document, when the load reads the file the save reached |
| `ConfigStore.RestartAcceptsSamePasswords` | src/state.py:834-863 | after `save_public_config` and a restart exactly the clear text that was in use is accepted, and where none was exactly what the credential accepted before the call; with an open vault whatever writes fail, without a vault when the save reaches the file a load reads |
| `ConfigStore.PlainPasswordSurvivesIff` | src/state.py:289-303 | without a vault, exactly when a clear-text administrator or community password without a credential is still accepted after a second start: the first one migrated it, or its save did not reach the document read next and the second one can still use the clear text |
| `ConfigStore.StartAccepts` | src/state.py:289-303 | the passwords a start without a vault accepts, by the document it finds, whether it can migrate and whether a credential stands beside the clear text |
| `ConfigStore.RefusedPasswordIsForgotten` | src/state.py:294-303 | a run in which nothing fails but hashing refuses the password: accepted by the first start, forgotten by the second |
| `ConfigStore.FallbackSaveForgetsPassword` | src/state.py:281-301 | a run in which the primary file cannot be written and the fallback file holds the configuration |
| `ConfigDocument.RestoredIff` | src/state.py:404-500 | exactly which protected globals survive a save and a load unchanged |
| `ConfigDocument.ProtectedIff` | src/state.py:108-121 | the twelve protected fields |
| `ConfigDocument.LoadFoldersIs` | src/state.py:463-472 | the loader keeps every entry with a path, in order, with a count of at least one |
| `ConfigDocument.LoadPairsIs` | src/state.py:473-486 | the same for entries with two paths |
| `ConfigDocument.LoadSealed` | src/state.py:171-180 | merging the sealed fields over any document and loading gives the saved globals as normalised, whatever that document said about them |
| `ConfigDocument.LoadPlain` | src/state.py:207-250 | the same for a document saved without a vault |
| `ConfigDocument.LoadClean` | src/state.py:404-500 | a document without protected fields loads to empty globals, written out, and a random secret |
| `ServerState.State.constructor` | src/state.py:289-303 | importing the module performs exactly the start step, import-time save included |
| `ServerState.State.ReadConfig` | src/state.py:125-132 | the loop over both files returns the first readable document or an empty one |
| `ServerState.State.MergeProtectedConfig` | src/state.py:149-186 | unlock attempt, merged document and remembered error on every path, a raising lookup or unlock included |
| `ServerState.State.MigratePasswordCredentials` | src/state.py:189-204 | the loop over both password pairs computes the migration, or raises exactly when a pending password gets no credential that verifies |
| `ServerState.State.SaveConfig` | src/state.py:207-286 | sealing, withholding and writing with both exception handlers perform the save step |
| `ServerState.State.SetAndSave` | src/state.py:614-634 | a setter assigns its globals and saves them in one step of the machine |
| `ServerState.State.SavePublicConfig` | src/state.py:834-841 | passwords in use are hashed, then saved; a credential without a clear text stays; a refused password raises before the save, with what was hashed by then |
| `ServerState.State.VerifyAdminPassword` | src/state.py:844-848 | the answer and the raising condition on the globals |
| `ServerState.State.VerifyCommunityPassword` | src/state.py:855-859 | the same for the community password |
| `ServerState.State.ReloadProtectedVaultState` | src/state.py:512-566 | when the reload succeeds or raises, the globals, the LAN password in use and the remembered error after it; on failure the globals are untouched |
| `ServerState.State.TryAutoUnlockDataVault` | src/state.py:569-604 | its answer, effect and remembered error for every way a lookup, an unlock or the reload can end |
| `AtomicSave.FilesAreWhole` | src/state.py:135-146 | in every interleaving of savers, with failures and crashes anywhere and saves after them, each of the two files is the original or the complete text of the saver that renamed over it last, and the sidecar the complete part of the saver that sealed last |
| `AtomicSave.AfterErrors` | src/state.py:276-286 | after any error on the primary file the fallback file is tried, after one on the fallback file nothing is |
| `AtomicSave.AfterCrash` | src/state.py:252-286 | a crash can come at any time and leaves every file as it is |
| `AtomicSave.LoadSeesLastSavedIff` | src/state.py:125-146 | in every such run, exactly when a load returns the document of the save that got through last |
| `AtomicSave.TemporaryIff` | src/state.py:135-146 | at any time of any run, a saver's temporary file is there exactly when it was created and neither renamed nor removed |
| `AtomicSave.OthersUntouched` | src/state.py:135-146 | leftovers of earlier crashes and all other files stay as they are |
| `AtomicSave.LeftBehindIff` | src/state.py:138-146 | a saver that ended without a crash leaves a temporary file exactly when writing or renaming it failed and so did removing it |
| `AtomicSave.NoTemporariesLeft` | src/state.py:135-146 | without a crash and with every removal working no temporary file remains when all savers are done |
| `AtomicSave.LeftoverRun` | src/state.py:138-146 | a saver that ends in the fallback file and leaves its first temporary file behind, with no crash |
| `AtomicSave.UninterruptedSave` | src/state.py:252-286 | a saver nobody interrupts leaves both parts of its own save, from any state |
| `AtomicSave.PartsCanDiffer` | src/state.py:252-286 | a run of two interleaved savers that finish with the protected part of one and the public part of the other |
| `AtomicSave.PartsOfOneSaveIff` | src/state.py:252-286 | in any interleaving, exactly when the sidecar and the primary file come from one save: the saver that sealed last also renamed last |
| `AtomicSave.SerialSavesTogether` | src/state.py:252-286 | saves that do not overlap, and in which no write fails, always leave the two parts of one save |
| `Passwords.MigrateTwice` | src/state.py:189-204 | migration is idempotent, whatever hashing a second one would use |
| `Passwords.MigratesIff` | src/state.py:189-204 | with ideal hashing migration goes through exactly when every pending password can be hashed; it is all or nothing |
| `Passwords.MigratesOnlyVerified` | src/state.py:197-201 | with any hashing, migration goes through exactly when every pending password gets a credential that verifies |
| `Passwords.OtherFieldsUntouched` | src/state.py:189-204 | migration touches the four password fields only |
| `Passwords.AnswerIs` | src/state.py:844-863 | when a password is accepted, by credential or clear text, and when comparing raises |
| `Passwords.RehashedIs` | src/state.py:834-840 | `save_public_config` changes a credential only where a clear text is in use, to one made from it, and nothing else; exactly when it raises |
| `Passwords.RehashedAccepts` | src/state.py:834-863 | the passwords accepted afterwards: exactly the clear text in use, and where there is none exactly those accepted before |
| `Passwords.MigrationKeepsAcceptanceIff` | src/state.py:189-204 | exactly when migration keeps the set of accepted passwords, for either of the two |
| `Passwords.MigrationLosesNothing` | src/state.py:189-204 | with no credential before, every accepted password is still accepted and the clear text is gone |
| `Passwords.DroppingPlainKeepsIff` | src/state.py:844-848 | exactly when dropping the clear text keeps the set of accepted passwords |
| `Passwords.RehashedSurvives` | src/state.py:834-841 | after hashing what is in use, the credential knows the clear text, and saving and loading keep the set of accepted passwords |
| `UploadGrants.RedemptionIff` | src/state.py:1180-1195 | a redemption succeeds exactly when the token was issued for this filename and size, has not expired and was not spent; the lazy sweep never shows |
| `UploadGrants.OfferTerms` | src/state.py:1131-1164 | a grant has the terms of the issuing call or of its request, and two minutes |
| `UploadGrants.RedemptionIsJustified` | src/state.py:1180-1195 | the safety half of that, without any assumption on the clock |
| `UploadGrants.RedeemedAtMostOnce` | src/state.py:1180-1195 | no token is redeemed twice in a run |
| `UploadGrants.GrantsPartitioned` | src/state.py:1131-1195 | an issued grant is stored unchanged, or spent, or swept after expiry, and being stored excludes the other two |
| `UploadGrants.SpentOnlyBeforeSweep` | src/state.py:1180-1195 | a grant is spent only before the first sweep that finds it expired, so spent and swept unspent exclude each other |
| `UploadGrants.StoredWasIssued` | src/state.py:1131-1165 | nothing is stored that was never issued |
| `UploadGrants.FirstSettlementIsFinal` | src/state.py:1149-1177 | the first resolution, or look-up from the expiry time on, decides a request's status, token and all other fields for the rest of the run |
| `UploadGrants.SettlementTerms` | src/state.py:1149-1177 | resolutions settle as accepted or declined, look-ups from two minutes on as expired |
| `UploadGrants.AskedTerms` | src/state.py:1110-1123 | a request as it is created, with two minutes to settle it |
| `UploadGrants.PendingUntilSettled` | src/state.py:1105-1128 | until then the request is exactly as created |
| `UploadGrants.SettledNeverChanges` | src/state.py:1149-1177 | a status leaves "pending" at most once |
| `UploadGrants.AcceptedTokenWasIssued` | src/state.py:1149-1165 | an accepted request's token is non-empty and was issued by its own acceptance for its filename and size |
| `UploadGrants.AcceptedTokensDiffer` | src/state.py:1149-1165 | accepted requests have distinct tokens |
| `UploadGrants.AcceptedIffFirst` | src/state.py:1149-1165 | an acceptance, however late, issues a grant exactly when nothing settled the request before |
| `UploadGrants.LateAcceptanceExample` | src/state.py:1149-1195 | a concrete run: an acceptance far beyond its two minutes yields a grant that is redeemed within its own, and not at their end |
| `UploadGrants.UploadDesk.CreateRequest` | src/state.py:1105-1128 | performs the create step; the stored and returned record field by field |
| `UploadGrants.UploadDesk.IssueGrant` | src/state.py:1131-1146 | performs the issue step; the stored grant, with two minutes |
| `UploadGrants.UploadDesk.ResolveRequest` | src/state.py:1149-1165 | performs the resolve step; the record and the grant afterwards, and that nothing changes unless the request was pending |
| `UploadGrants.UploadDesk.GetRequest` | src/state.py:1168-1177 | performs the look-up step; a pending record past its time becomes expired |
| `UploadGrants.UploadDesk.ConsumeGrant` | src/state.py:1180-1195 | performs the redeem step; the answer and the grants left, in the fields of the stored grants |
| `WritePairing.RedemptionIff` | src/state.py:1208-1244 | either route succeeds exactly when it presents the code of a reset not followed by a redemption, expiry, clear or reset, at most ten minutes old; only one route strips |
| `WritePairing.OneRedemptionPerReset` | src/state.py:1198-1244 | between two redemptions, whatever their routes, lies a reset |
| `WritePairing.RedemptionsBounded` | src/state.py:1198-1244 | redemptions and the code still on display together never exceed the resets |
| `WritePairing.ValidationIff` | src/state.py:1247-1256 | a token validates exactly until its hour is over or a reset or clear; the sweep never changes an answer; before the epoch any token does |
| `WritePairing.NeverAcceptedAgain` | src/state.py:1247-1256 | a granted token once refused is refused for ever |
| `WritePairing.WriteAuth.ResetWriteAuth` | src/state.py:1198-1205 | the code is the six-digit numeral of the draw, and tokens are dropped |
| `WritePairing.WriteAuth.ConsumeWriteOtp` | src/state.py:1208-1222 | performs the step or raises; the answer in the code on display, its deadline and the stripped text |
| `WritePairing.WriteAuth.IssueWriteToken` | src/state.py:1233-1244 | performs the step and returns the token exactly on redemption |
| `WritePairing.WriteAuth.ValidateWriteToken` | src/state.py:1247-1256 | performs the sweeping step and answers acceptance, for any clock reading |
| `WritePairing.WriteAuth.ExpireWriteOtp` | src/state.py:1225-1230 | takes the code away and keeps the tokens |
| `WritePairing.WriteAuth.ClearWriteAuth` | src/state.py:1259-1265 | takes the code and all tokens away |
| `TrustedDevices.VerifiesIff` | src/state.py:748-775 | after any run of registrations, revocations and migrations on any loaded table a credential verifies for an id exactly when the id's binding leads back to the registration that issued it, or to the loaded entry stored with its hash |
| `TrustedDevices.CredentialOpensOneDevice` | src/state.py:748-1102 | no credential ever verifies for two device ids at once, loaded bindings included |
| `TrustedDevices.MigrationConserves` | src/state.py:1093-1102 | migration onto a free id moves the binding and keeps the number of devices; onto a registered id it keeps the target's binding and drops one; all others are unaffected |
| `TrustedDevices.RegisteredIffStored` | src/state.py:763-766 | which ids are registered, from the events alone |
| `TrustedDevices.AtMostOneOutstanding` | src/state.py:778-788 | the challenge table holds the newest unpresented challenge and nothing else |
| `TrustedDevices.PresentIff` | src/state.py:791-800 | a challenge is accepted exactly when it is the newest, presented for the first time, in time, with the same ordered pair of ids |
| `TrustedDevices.PresentSpends` | src/state.py:791-800 | presenting a challenge spends it, whatever ids came with it |
| `TrustedDevices.DeviceTrust.RegisterDevice` | src/state.py:748-760 | exactly when a device is registered, what is stored, and that the displayed code is spent only by being presented |
| `TrustedDevices.MayRegisterIff` | src/state.py:748-752 | exactly what admits a registration: an id that is not blank, and the displayed code or else a valid authenticator code |
| `TrustedDevices.DeviceTrust.VerifyDeviceCredential` | src/state.py:769-775 | the answer on records of every kind |
| `TrustedDevices.DeviceTrust.RevokeDevice` | src/state.py:803-810 | removes the trimmed id; a blank id changes nothing |
| `TrustedDevices.DeviceTrust.MigrateTrustedDevice` | src/state.py:1093-1102 | performs the migration step and answers whether it took effect |
| `TrustedDevices.DeviceTrust.CreateMigrationChallenge` | src/state.py:778-788 | replaces whatever challenge was outstanding |
| `TrustedDevices.DeviceTrust.ConsumeMigrationChallenge` | src/state.py:791-800 | pops first, then answers or raises from left to right |
| `RateLimits.AdmittedIffWindowCount` | src/state.py:725-733 | a call is admitted exactly when it and all earlier calls of the last 60 seconds number at most 120 |
| `RateLimits.NoWindowExceedsCap` | src/state.py:725-733 | no closed 60-second window of a run holds more than 120 admitted calls |
| `RateLimits.StoredIsWindow` | src/state.py:725-733 | the lazily pruned list is the full history restricted to the window |
| `RateLimits.PrunedIs` | src/state.py:730-730 | pruning keeps each stamp at or after the cutoff as often as it occurs, and no other |
| `RateLimits.KeysAreIndependent` | src/state.py:725-733 | any interleaving over many keys behaves as one limiter per key |
| `RateLimits.AdmittedIffRemembered` | src/state.py:725-733 | the decision for any clock readings: the calls of the window that none left more than 60 seconds behind number at most 120 |
| `RateLimits.StoredMissesIff` | src/state.py:725-733 | exactly when the lazily pruned list is as long as the window of the full history, for any clock readings |
| `RateLimits.DecisionRightIff` | src/state.py:725-733 | exactly when the decision is the one on the full history, for any clock readings |
| `RateLimits.CapUnlessForgotten` | src/state.py:725-733 | the cap of `NoWindowExceedsCap` for any clock readings under which nothing is forgotten |
| `RateLimits.StaleReadingBreaksCap` | src/state.py:725-733 | a concrete run with one stale clock reading admits 121 calls in a window |
| `RateLimits.GeneralLimiter.RequestAllowed` | src/state.py:725-733 | the answer as a function of the key's history; other keys are untouched |
| `RateLimits.RecordedPlusInFlightBounded` | src/state.py:813-831 | recorded entries of the current window plus callers in flight never exceed MAX - 1 + K, hence MAX for one caller, with MAX the largest limit that was in force |
| `RateLimits.NoWindowExceedsBound` | src/state.py:1268-1285 | between clears no closed window of a run holds more than MAX - 1 + K records |
| `RateLimits.GateIsWindow` | src/state.py:813-831 | the stored list agrees with the unpruned record on the current window |
| `RateLimits.GateCounts` | src/state.py:813-831 | for any clock readings the stored list has one entry for each record since the last clear that no later check or record left more than a window behind |
| `RateLimits.CountingPlusInFlightBounded` | src/state.py:813-831 | for any clock readings those records plus callers in flight never exceed MAX - 1 + K |
| `RateLimits.BoundIsReached` | src/state.py:813-831 | for every limit and number of callers some run reaches that bound |
| `RateLimits.TableIsPerKey` | src/state.py:1268-1303 | keys do not disturb each other, and clearing by prefix clears exactly the keys that start with it |
| `RateLimits.UploadLimiter.AllowedForIp` | src/state.py:813-822 | the answer, the pruned table and the set of limited addresses |
| `RateLimits.UploadLimiter.RecordForIp` | src/state.py:825-831 | performs the recording step on one address |
| `RateLimits.AuthLimiter.AttemptAllowed` | src/state.py:1268-1275 | the answer and the pruned table |
| `RateLimits.AuthLimiter.RecordFailure` | src/state.py:1278-1285 | performs the recording step on one key |
| `RateLimits.AuthLimiter.ClearFailures` | src/state.py:1288-1291 | forgets one key |
| `RateLimits.AuthLimiter.ClearByPrefix` | src/state.py:1294-1303 | the table without the matching keys, and how many there were |
| `FolderHistory.BoundedShowsUnbounded` | src/state.py:673-685 | over every run in clock order the truncated list shows the first entries of the unbounded recency list, ties included |
| `FolderHistory.ShareShowsIff` | src/state.py:673-685 | exactly when one share, at any time, keeps that agreement |
| `FolderHistory.OldShareShows` | src/state.py:673-685 | a run in which it is lost: more folders than the list holds, then a kept one at an older time |
| `FolderHistory.UnboundedIsLatest` | src/state.py:673-685 | the unbounded list has exactly the shared ids, each with its latest time and its number of shares |
| `FolderHistory.BoundedWellFormed` | src/state.py:673-685 | after any run the list has no duplicates, is newest first and within its limit |
| `FolderHistory.CountIsSharesOfStay` | src/state.py:673-685 | a stored count is the number of shares since the entry last entered the list |
| `FolderHistory.RecommendsTop` | src/state.py:688-692 | what is recommended and what is omitted together make up the existing folders; the more often shared comes first, then the more recent, in the recommendation and against what is omitted |
| `FolderHistory.RankIff` | src/state.py:691-691 | the rank is the share count, and recency where that is equal |
| `FolderHistory.ExistingIs` | src/state.py:690-690 | existing folders stay in the order of the history |
| `FolderHistory.Histories.RecordFolderShare` | src/state.py:673-685 | keeps the list equal to the bounded run, for 100 entries |
| `FolderHistory.Histories.RecordFolderPair` | src/state.py:889-902 | the same for pairs and 50 entries; fewer than two paths are ignored |
| `FolderHistory.Histories.RecommendedFolders` | src/state.py:688-692 | existing folders of the history, by share count, then recency, then the order of the history; one is left out only at the limit, and then none that is shown ranks below it; no folder twice |
| `FolderHistory.Histories.Clear` | src/state.py:695-698 | both histories start again from nothing |
| `StableSort.SortDescends` | src/state.py:683-691 | the sort is descending by key |
| `StableSort.SortPermutes` | src/state.py:683-691 | the sort is a permutation |
| `StableSort.SortIsStable` | src/state.py:683-691 | equal keys keep their order |
| `HiddenPaths.TableMeansSet` | src/state.py:922-940 | after every run each slot is strictly sorted, in normal form and lists exactly the hidden folders |
| `HiddenPaths.ReloadIff` | src/state.py:493-500 | saving and loading reproduces a slot exactly when no path ends in whitespace |
| `HiddenPaths.RunSurvivesReloadIff` | src/state.py:493-500 | the same for the result of any run |
| `HiddenPaths.TrailingBlankRun` | src/state.py:493-500 | a hidden folder whose name ends in a blank comes back as another one |
| `HiddenPaths.LoadSlotIsSortedSet` | src/state.py:493-500 | the loader yields the sorted set of what it makes of the kept paths |
| `HiddenPaths.LoadedIff` | src/state.py:493-500 | one path comes back unchanged exactly when it does not end in whitespace, else shorter or not at all |
| `HiddenPaths.CleanIsNormal` | src/state.py:926-928 | what passes the check is in normal form, and normalising twice is normalising once |
| `HiddenPaths.CleanShape` | src/state.py:926-926 | backslashes become slashes, and nothing but slashes at either end is dropped |
| `HiddenPaths.LoadedShape` | src/state.py:495-499 | a stored path is stripped and then normalised; exactly when it is dropped |
| `HiddenPaths.BeforeIff` | src/state.py:933-933 | the order is by the first character that differs, a prefix first |
| `HiddenPaths.SegmentsJoined` | src/state.py:927-927 | splitting at slashes loses nothing and leaves no slash in a segment |
| `HiddenPaths.Visibility.SetHiddenPath` | src/state.py:922-940 | exactly when it raises; otherwise the path is hidden or not as asked, all other paths and slots are untouched, and it answers and saves exactly when the set of hidden folders changes |
| `Totp.CodeIsSixDigits` | src/state.py:41-48 | every code is six digits denoting the truncated digest modulo one million of an eight-byte message that names the counter |
| `Totp.CounterIff` | src/state.py:43-43 | the counter at a time is the one integer whose thirty-second interval holds it |
| `Totp.RfcTimes` | src/state.py:43-43 | the counters RFC 6238 lists for its test times |
| `Totp.FilteredParts` | src/state.py:738-738 | the digit filter works part by part, so it keeps order |
| `Totp.GapIsIgnored` | src/state.py:738-738 | a blank between the digits is ignored |
| `Totp.TruncatedIsRfc` | src/state.py:46-47 | the truncated value is the 31-bit big-endian number of RFC 4226 section 5.3 |
| `Totp.RfcExample` | src/state.py:46-48 | the worked example of RFC 4226 section 5.4 gives 872921 |
| `Totp.WindowByCounters` | src/state.py:54-59 | a text is in the window exactly when it is six digits denoting the value of a counter within the window |
| `Totp.ShownCodeAccepted` | src/state.py:736-741 | a code shown at one moment is in the window at every time within 30 seconds of it |
| `Totp.Verify` | src/state.py:54-59 | the answer is membership in the window; exactly when it raises for an early or late clock or non-ASCII text |
| `Totp.VerifyTotp` | src/state.py:736-741 | refuses anything but six digits; otherwise answers membership in the one-step window, or raises, exactly as the clock and text beyond ASCII decide |
| `Totp.At` | src/state.py:41-48 | the code of the time's counter, or an error exactly when that counter is negative or does not fit eight bytes |
| `GpuProbe.VerifiedWasProbed` | src/deps.py:171-275 | over every run of refreshes a verified backend is listed now, supported here, and had every format work within the budget in one probe of that path, now or earlier |
| `GpuProbe.CacheIsTransparent` | src/deps.py:171-195 | on a stable host every forced or unforced refresh returns what detection without a cache returns |
| `GpuProbe.CacheHoldsOne` | src/deps.py:193-195 | the cache never holds more than one executable |
| `GpuProbe.RepeatLaunchesNothing` | src/deps.py:180-192 | an unforced repeat on the same path adds nothing to the probe counter |
| `GpuProbe.RepeatIsFreshIff` | src/deps.py:182-192 | exactly when an unforced repeat with another encoder list is what a cache-free detection gives |
| `GpuProbe.NewEncoderStaysHidden` | src/deps.py:182-192 | two refreshes of one executable that gains an encoder: listed, but shown as not declared |
| `GpuProbe.VerifiedIff` | src/deps.py:138-168 | a probe verifies exactly when each format works within what the earlier ones left of the budget |
| `GpuProbe.FirstOutcome` | src/deps.py:143-168 | how a probe goes on or ends, and the reason it gives, for every outcome of a run |
| `GpuProbe.StateIs` | src/deps.py:182-192 | the four ways to the state of a backend, and what each says |
| `GpuProbe.SupportedIff` | src/deps.py:110-115 | which backends are tried on which platform |
| `GpuProbe.EncodersOf` | src/deps.py:74-119 | the encoder names and pixel formats |
| `GpuProbe.LaunchedIff` | src/deps.py:182-192 | exactly the listed and supported backends that are not remembered are probed |
| `GpuProbe.ForcedIsFresh` | src/deps.py:180-181 | a forced refresh ignores what is remembered |
| `GpuProbe.SummaryIs` | src/deps.py:248-275 | what each capability flag means in the listed encoders, muxers and filters |
| `GpuProbe.NothingIs` | src/deps.py:215-241 | without a usable executable nothing is available but the error |
| `GpuProbe.ChoiceIs` | src/deps.py:316-333 | which executable is chosen and examined, and the error of a configured path that is not |
| `GpuProbe.ProbeGpuEncoder` | src/deps.py:138-168 | for any list of formats the probe ends within eight seconds if each run respects its timeout |
| `GpuProbe.FfmpegState.DetectGpuEncoders` | src/deps.py:171-195 | the states of all backends, the replaced cache and the number of probes launched |
| `GpuProbe.FfmpegState.DetectCapabilities` | src/deps.py:208-275 | capabilities, cache and number of probes for a usable, a missing and a failing executable |
| `GpuProbe.FfmpegState.RefreshCapabilities` | src/deps.py:292-366 | the executable chosen, its source, which error a manual path has, the capabilities, the number of probes and whether breakers are reset |
| `GpuProbe.FfmpegState.TryManual` | src/deps.py:316-327 | the configured path is used exactly when it is executable and can be listed; otherwise which error it has, and the cache is left alone |
| `Redaction.Redactor.SecretsDoNotShow` | src/application/observability.py:38-50 | trees that differ only below sensitive keys redact to the same tree |
| `Redaction.Redactor.PartsAreReplaced` | src/application/observability.py:38-41 | every value is replaced under a key that has one of the five parts anywhere in it |
| `Redaction.Redactor.NamesAreReplaced` | src/application/observability.py:26-41 | every value is replaced under one of the listed names |
| `Redaction.Redactor.OthersAreKept` | src/application/observability.py:40-50 | under any other key mappings, sequences and scalars are kept, texts scrubbed, and other values shown as text |
| `Redaction.Redactor.CredentialChangedIsReplaced` | src/application/observability.py:38-41 | a flag such as `credential_changed` does not show |
| `Redaction.Redactor.RedactsAlikeIff` | src/application/observability.py:38-50 | two trees redact to the same tree exactly when they look alike outside sensitive keys |
| `Redaction.Redactor.ShapePreserved` | src/application/observability.py:38-50 | along every path outside sensitive keys the output has a subtree exactly where the input has one, under the same key |
| `Redaction.Redactor.NothingBelowSecrets` | src/application/observability.py:38-50 | nothing is found below a sensitive key |
| `Redaction.PayloadsIndependentOfSecrets` | src/application/observability.py:127-148 | log calls whose fields differ only below sensitive keys emit the same payload |
| `Redaction.StructuredLogger.Emit` | src/application/observability.py:127-148 | every field is redacted under its name, the last field of a name wins, and each fixed value shows where no field has its name |
| `Redaction.UpdatedIs` | src/application/observability.py:137-146 | each name of the payload shows its last field, redacted, or else the fixed value |
| `Fingerprint.CutsDoNotMatter` | src/core/file_fingerprint.py:36-39 | the digest of any cutting of the content is the digest of the content |
| `Fingerprint.FingerprintFile` | src/core/file_fingerprint.py:21-43 | for every chunk size and every pattern of short reads the whole-file digest, only when size and time are equal before and after; every error case, opening and reading included |

## Left out

- JSON text, the parsing of ill-typed documents and their crashes at start: documents are maps of parsed values.
- The loader's clamps for settings that are not protected, and the random `server_id`: each is one branch.
- The data vault's inside: sealing replaces the sidecar as a whole or fails without effect, and decryption returns what was sealed or fails.
- Real hashing, HMAC and base-32 decoding: parameters with the laws stated in the theorems; rounding of floating-point times is not modelled.
- Patterns of `redact_secret_text` and Unicode lower-casing: arbitrary functions in the redaction theorems.
- Mapping keys that are not strings, whose `str()` could collide, and the iteration order of sets in payloads.
- Parsing of FFmpeg's listings, and its command line: what an executable lists is a parameter.
- Interleavings inside `migrate_trusted_device` and the history functions, which take no lock: each call is one step.
- Saving after each change of devices, histories and hidden paths: the configuration machine takes it as one setting step.
- `save_gpu_encoder_preference`, cluster roles, performance presets, appearance and other one-branch setters.
- Log sinks, activity queues and the circuit breakers they inform.
- ServerState.State.SetAndSave: stands for every setter, with the globals it assigns as parameters, because the setters differ only in which globals they assign.
- The Unicode normalisation `hash_password` and `verify_password` apply: a credential is taken to accept exactly the password it was made from.
