# Verified models of the portal gate, the operations tools and the client kernels

This project models, in Dafny 4.11, parts of the probabilistic reward distribution system and proves
properties of them. `dafny verify dfyconfig.toml` checks everything.

| files | what they model |
|---|---|
| `JsText`, `Utf8`, `PercentCoding` | JavaScript trimming and searching; UTF-8 with the error-replacing decoder of the WHATWG Encoding Standard; percent-coding of RFC 3986 section 2.1 and the form coding of the WHATWG URL Standard sections 5.1 and 5.2 |
| `PortalNavigation`, `PortalGate`, `PortalRedirects` | the SaaS portal's return-path sanitizers, its login and legal links, the `authorized` callback as a redirect machine, and chains of redirects |
| `SecretFiles`, `JwtRotation`, `TokenDrain`, `SessionTtl`, `TargetSeparation`, `SecretPriming` | the managed secret files, staging and finalizing a dual-secret JWT rotation, the rotation over time against live session tokens, the two readings of the configured token lifetime, both targets together with the start-up check of the backend, and which secrets a primed environment shows |
| `DrainTracker`, `DrainRuns` | the in-flight request counter of the prize engine load server and its drain promises, then all interleavings of its hooks |
| `WalletLedger`, `WalletRepair` | seeding a wallet's ledger, replaying it, and the loop that repairs wallets without a ledger |
| `OpsArgs`, `EnvFile`, `OpsEnv` | the command line parser, the lines of environment files, and the loading of those files and of variables that point to files |
| `SlotMachine` | ranking prizes, their symbols, and the reels of a finale |
| `BirthDate`, `DeviceHash`, `TextSlugs` | birth date validation, fallback hashes, string normalizers |

Code that changes state step by step is a class or a method with loops (`OpsHost`, `DrainTracker`, `LedgerDb`,
`OpsEnvironment`, `SearchParams`, `ParseArgs`, `BuildPrizeSymbolMap`, ...), specified by functions on values; the
lemmas are about those functions.

## Results that the code or its documentation does not show at a glance

- **Who is stopped, and where they arrive.** For every outcome and every URL it is exactly known who is let through
  (`LetThroughIff`); whoever is stopped without a clear session arrives at the login or legal page in one step and finds
  the path and query asked for there (`StoppedVisitorArrives`). Whatever URL a run starts from, it ends at a portal page
  with a clear session only (`FollowEndsWell`).
- **Redirects stop, but the sanitizer does not bound them.** The gate acts on every path that begins with `/login` or
  `/legal`, the sanitizer only refuses the exact pages, so there are redirect chains of every length
  (`ChainsOfEveryLength`). They still stop (`GateStops`): each target is decoded out of the previous query and uses up
  at least nine of its decoded characters, whatever the URL parser does to paths.
- **A sanitized target can name a host**: the sanitizers look for two plain slashes, the URL parser also takes a
  back-slash for a slash and skips tabs and line breaks (`SanitizedNamesHostIff`). If it is the portal's own host the
  chain goes on, if it is another one the browser leaves, and if it is none the callback throws
  (`SanitizedLandsOnPortalIff`, `BackslashTarget`). The chains stop in all cases (`GateStops`).
- **A wait of one token lifetime is exact.** Over all runs, no unexpired session token is rejected if and only if the
  operator waits for at least one token lifetime (`WaitIsExact`). **The wait that the tool prints need not be that
  long**: it reads the configured lifetime with `parseInt`, the servers that sign tokens read it with `Number`. The
  texts for which waiting as printed is enough are described exactly (`PrintedCoversIff`, `PrintedWaitIsSafeIff`); for
  `8h` the tool prints eight seconds (`SuffixAndExponentMislead`), while plain whole numbers are safe
  (`WholeNumbersAgree`).
- **The old secret survives a stage if and only if the two files are kept apart** (`PreviousKeptIffApart`), as the
  documented set-ups do (`UsualSetUpKeptApart`). Then it is still there at every crash point, between the two writes or
  inside one of them (`OldSecretSurvives`). After a crash between the writes a second run completes the stage
  (`RerunCompletes`); after one inside a write the guard admits a second run only in the cases of `AfterTornWrite`.
- **The targets stay out of each other's files**: a stage writes the two files named after its target and no other
  (`StageWritesNamedFiles`), and in the documented set-ups the four secrets have four locations
  (`UsualSetUpAllApart`), so that staging or finalizing one target leaves the other as it was (`OtherTargetStays`).
- **Start-up can refuse what the rotation tool accepts.** The start-up check also refuses a pair of equal secrets (a
  stage cut in half) and compares with secrets that the tool does not look at (`ToolAcceptsStartUpRefuses`); whether it
  will accept the staged files can be told from the new secret (`StagedSecretAtStartUp`).
- **The request counter is exact if and only if no health check completes while it is positive** (`ExactIffNoStray`):
  health checks are skipped on entry but not on completion. Then every drain that is reported is one
  (`DrainsReportedRightly`). Once the counter is short, a drain will be reported early in some continuation without any
  health check (`ReliableIffExact`; an example is `HealthCheckHidesRequest`).
- **No promise outlives its timer**: in every run in which the timer of a waiter goes off after it came, it has been
  answered at the end, exactly once, wherever it stood among the others (`TimerEndsTheWait`, `TimerStep`).
- **Seeding and replaying are inverse for whole cents exactly when only the withdrawable balance is negative, if any,
  and the funding is not** (`ReplayInvertsSeeding`). With finer amounts the replay gives what the wallet shows exactly
  when the rounded funding is the sum of the rounded parts (`ReplayShowsWalletIff`), and otherwise drifts by at most
  one and a half cents (`ReplayWithinRounding`, `RoundingDrifts`).
- **All orders of hydrating file variables agree if and only if no target's value depends on which variables of the
  secret root were hydrated before it** (`OrdersAgreeIff`), which can be checked beforehand. So it is when none of those
  is hydrated and when the path resolver ignores them (`StayingRootsAgree`, `FixedResolverAgrees`), but not always
  (`OrderCanMatter`).
- **The rotation tool compares a new secret with the environment only.** Priming shows a secret there exactly when its
  file is configured and its variable empty, or both agree anyway (`PrimedShowsSecretIff`, `MirrorsIff`); otherwise the
  tool can stage one target's secret for the other (`HiddenSecretIsStaged`).
- **The mobile reseed deletes a user's rows before it refuses a negative wallet** (`LedgerDb.ReseedWalletLedger`).
- **Commands that receive the arguments without the first one see the right words exactly when the first argument is
  the word that was dispatched on** (`DispatchDropsTheWordIff`).

## Model

| member | source | states |
|---|---|---|
| PercentCoding.FormDecodeEncode | apps/saas-portal/lib/navigation.ts:34-37 | what `encodeURIComponent` or the form serializer writes, the form parser reads back exactly, for every well-formed text |
| PercentCoding.KeptCharacters | apps/saas-portal/lib/navigation.ts:34-51 | which characters each of the three encoders leaves alone, listed literally |
| PercentCoding.EscapeIsUpperCase | apps/saas-portal/lib/navigation.ts:34-51 | an escaped byte is a percent sign and two upper-case hexadecimal digits, high half first |
| Utf8.DecodedIsEncoded | apps/saas-portal/lib/auth.config.ts:52-68 | what the decoder does not replace was the shortest form of that character, so that nothing else decodes to it |
| Utf8.ReplacedPartIsMaximal | apps/saas-portal/lib/auth.config.ts:52-68 | a replacement takes one byte, or all that could have begun a character and no byte more |
| PercentCoding.QueryBytesEncodeQuery | apps/saas-portal/lib/auth.config.ts:145-153 | re-encoding a query inside `new URL` changes none of the bytes it stands for, broken escapes included |
| PercentCoding.DecodedNoLonger | apps/saas-portal/lib/auth.config.ts:52-68 | a decoded query never has more characters than the raw one, also with invalid UTF-8 |
| PercentCoding.ValueShorterThanQuery | apps/saas-portal/lib/auth.config.ts:52-68 | a parameter read from a query is shorter than the decoded query by at least its name |
| PercentCoding.BareNameReads | apps/saas-portal/lib/auth.config.ts:52-68 | a name without an equals sign reads as the empty value, an absent one as none |
| PortalNavigation.BuildLegalPath | apps/saas-portal/lib/navigation.ts:39-52 | filling a `URLSearchParams` with `set` gives the specified legal link, with the default target and an empty error left out |
| PortalNavigation.SetReadsBack | apps/saas-portal/lib/navigation.ts:43-51 | after `set`, the printed query gives the new value for that name and the old one for every other name |
| PortalNavigation.SerializeReadsBack | apps/saas-portal/lib/navigation.ts:50-51 | reading any name from a printed query gives the first entry of that name |
| PortalNavigation.LocalPathExactly | apps/saas-portal/lib/navigation.ts:5-15 | the local sanitizer gives the trimmed text if it begins with one slash but not with two, and else the fallback |
| PortalNavigation.ReturnToExactly | apps/saas-portal/lib/navigation.ts:17-32 | the return sanitizer gives the trimmed text exactly when it is such a path, is neither `/login` nor `/legal` and begins with neither `/login?` nor `/legal?`, and else the fallback; so no exact gate page ever passes when the fallback is none |
| PortalNavigation.SanitizeTwice | apps/saas-portal/lib/navigation.ts:5-32 | each sanitizer changes nothing when it is applied again, and the local one nothing for the other |
| PortalGate.EncodedQueryReads | apps/saas-portal/lib/auth.config.ts:52-68 | every parameter reads the same before and after the URL parser re-encodes the query |
| PortalGate.LetThroughIff | apps/saas-portal/lib/auth.config.ts:114-161 | for every outcome and URL, whether the callback lets the request through, by the literal fronts of the path |
| PortalGate.StoppedVisitorArrives | apps/saas-portal/lib/auth.config.ts:114-146 | whoever is stopped without a clear session arrives at `/login` or `/legal` on the portal, where the trimmed path and query of the request read back; the legal page omits the default and exact gate pages |
| PortalGate.ClearTargetExactly | apps/saas-portal/lib/auth.config.ts:52-68 | a clear session is sent from the login and legal pages to the trimmed parameter exactly when it begins with one slash only and is no exact gate page, and else to `/portal` |
| PortalGate.LegalPageCarries | apps/saas-portal/lib/navigation.ts:39-52 | the legal page carries the target unless it is the default, and the error unless it is empty |
| PortalGate.FragmentIsDropped | apps/saas-portal/lib/auth.config.ts:149-153 | a fragment of a target changes nothing about the page |
| PortalGate.LoginRoundTrip | apps/saas-portal/lib/auth.config.ts:52-68 | reading `buildLoginPath(p)` back through the gate gives exactly `sanitizePortalReturnTo(p)`, for every `p` |
| PortalGate.LegalRoundTrip | apps/saas-portal/lib/auth.config.ts:52-68 | the same for `buildLegalPath(p, error)`, also when the default target is left out |
| PortalRedirects.GateTargetShrinks | apps/saas-portal/lib/auth.config.ts:52-68 | a post-gate target other than the default has a decoded query at least nine characters shorter than the page it came from |
| PortalRedirects.RedirectLowersRank | apps/saas-portal/lib/auth.config.ts:114-161 | every redirect of the callback, in every outcome, lowers the rank of the page |
| PortalGate.NamesHostIff | apps/saas-portal/lib/auth.config.ts:149-153 | `new URL` reads a host name in a target that starts with a slash exactly when a slash or back-slash follows, tabs and line breaks aside |
| PortalGate.SanitizedNamesHostIff | apps/saas-portal/lib/navigation.ts:5-32 | a sanitized target names a host exactly when a back-slash is its second character, or a tab or line break that is followed by a slash of either kind |
| PortalGate.SanitizedLandsOnPortalIff | apps/saas-portal/lib/navigation.ts:5-32 | then it leaves the portal exactly when that host is another one, and fails exactly when it is none |
| PortalRedirects.BackslashTarget | apps/saas-portal/lib/auth.config.ts:149-153 | for every host name behind a slash and a back-slash: the redirect comes back to the portal if and only if it is the portal's own |
| PortalRedirects.GateStops | apps/saas-portal/lib/auth.config.ts:114-161 | from every URL and for every fixed outcome, following redirects, also over targets that name the portal's own host, is a chain of gate steps that ends within the rank at a page that is let through, or, with a clear session only, at one whose target names another host or no valid one |
| PortalRedirects.DetourReturns | apps/saas-portal/lib/auth.config.ts:123-154 | a visitor sent to the login or legal page stays there, and once clear is sent to the sanitized form of the page asked for |
| PortalRedirects.FollowEndsWell | apps/saas-portal/lib/auth.config.ts:114-161 | over every chain from every URL: the last page is a portal page with a clear session only; a clear session ends outside the login and legal pages or off the portal; a stopped visitor ends after one redirect with what was asked for; who is let through stays |
| PortalRedirects.ChainsOfEveryLength | apps/saas-portal/lib/navigation.ts:17-32 | for every `n` there is a URL from which the clear gate redirects exactly `n` times |
| SecretFiles.OpsHost.ReadManagedSecretFile | scripts/ops/_shared.ts:741-761 | the path and value that the environment and the files determine, with the variable as fallback |
| SecretFiles.RunTimePathLeads | scripts/ops/_shared.ts:237-260 | a configured `/run/secrets/` path leads to its file if it exists and else to the same name in the secret root |
| SecretFiles.OtherPathLeads | scripts/ops/_shared.ts:237-260 | any other configured path leads to itself, then to the one relative to the repository, and to itself when neither exists |
| SecretFiles.DefaultPathLeads | scripts/ops/_shared.ts:741-761 | without a configured path the secret is in the secret root, or has no path |
| SecretFiles.ReadAfterWrite | scripts/ops/_shared.ts:741-766 | a secret written where it lives reads back trimmed, from the same file, although the path is looked up again |
| SecretFiles.ReadAfterOtherWrite | scripts/ops/_shared.ts:237-260 | writing a file that does not shadow a secret leaves its location and value alone |
| SecretFiles.ReadAfterRemoval | scripts/ops/_shared.ts:741-770 | after its file was removed a secret reads as its variable shows it, unless the file was the configured one and another file was behind it |
| JwtRotation.ValidateNewSecret | scripts/ops/rotate-jwt.ts:151-174 | refuses exactly the secrets that are missing, short, without a current secret to rotate, equal to it or held by one of the compared variables, with the first reason that applies |
| JwtRotation.StageRotation | scripts/ops/rotate-jwt.ts:189-229 | the answer in the order of the checks; only a completed stage changes the files, and then by the two writes |
| JwtRotation.StageDoneIff | scripts/ops/rotate-jwt.ts:189-229 | a stage is carried out exactly for an admitted secret that is to be applied and has both paths, and only planned exactly for an admitted one that is not |
| JwtRotation.StageWritesNamedFiles | scripts/ops/rotate-jwt.ts:28-64 | for each target, with literal file names: the new secret goes to the current file, the old one to the previous file, and every other file stays |
| JwtRotation.OtherTargetStays | scripts/ops/rotate-jwt.ts:189-253 | staging and finalizing one target leave paths and values of the other target, when the four locations differ |
| JwtRotation.UsualSetUpAllApart | scripts/ops/_shared.ts:237-260 | they differ pairwise when each secret is in the secret root or at its run-time path and no links join them |
| JwtRotation.FinalizeRotation | scripts/ops/rotate-jwt.ts:231-253 | removes the previous file exactly when a previous secret is read, a path is known and the plan is applied |
| JwtRotation.AfterFirstWrite | scripts/ops/rotate-jwt.ts:222 | after the first write both secrets read as the old one, at unmoved paths |
| JwtRotation.AfterStage | scripts/ops/rotate-jwt.ts:222-223 | after both writes the new secret is current and the old one previous |
| JwtRotation.OldSecretSurvives | scripts/ops/rotate-jwt.ts:195-223 | the old secret is readable after every prefix of the two writes, and whatever text a torn write left behind |
| JwtRotation.AfterTornWrite | scripts/ops/rotate-jwt.ts:195-223 | after a torn write the guard admits another stage exactly when the torn text reads as the old secret, or as nothing if it was the previous one |
| JwtRotation.PreviousKeptIffApart | scripts/ops/rotate-jwt.ts:218-223 | a carried-out stage keeps the old secret as previous exactly when the previous secret does not resolve to the current file |
| JwtRotation.UsualSetUpKeptApart | scripts/ops/_shared.ts:741-761 | with a secret root, and each secret under it or at its run-time path, the two files of a target are kept apart |
| JwtRotation.SharedFileLosesSecret | scripts/ops/_shared.ts:741-761 | when both variables name one file they are not, and a stage loses the old secret |
| JwtRotation.RerunPassesChecks | scripts/ops/rotate-jwt.ts:151-174 | with the other secrets unchanged, a second run's checks pass again exactly when the target's own two variables do not show the new secret |
| JwtRotation.RerunCompletes | scripts/ops/rotate-jwt.ts:189-229 | after a crash between the writes a second run whose environment shows the files passes every check, answers that it is done, and leaves the files of an uninterrupted stage |
| TokenDrain.StepKeepsInv | scripts/ops/rotate-jwt.ts:189-253 | every step of issuing, staging, crashing, tearing a write, deploying, waiting and finalizing keeps the token invariant |
| TokenDrain.RotationIsSafe | scripts/ops/rotate-jwt.ts:189-253 | in every run, over any number of rotations, no unexpired session token is rejected by the loaded pair when the wait covers the lifetime |
| TokenDrain.HastyRunRejects | scripts/ops/rotate-jwt.ts:213-214 | for every shorter wait, and every new secret that the tool admits, a run exists in which a live token is rejected |
| TokenDrain.WaitIsExact | scripts/ops/rotate-jwt.ts:205-214 | whatever other secrets there are, some run rejects a live token if and only if the wait is shorter than the lifetime |
| TokenDrain.StageTakesTheSteps | scripts/ops/rotate-jwt.ts:189-229 | what the tool does to the files, torn or not, is exactly the write and tear steps of the timed model |
| TokenDrain.FinalizeTakesTheStep | scripts/ops/rotate-jwt.ts:231-253 | what finalize does to the files is the finalize step of the timed model, as later processes read them, whatever the finalizing process has in its environment |
| SessionTtl.PrintedCoversIff | scripts/ops/rotate-jwt.ts:107 | the printed wait covers the lifetime of the tokens exactly for the texts that `GoodTtl` describes literal by literal |
| SessionTtl.WholeNumbersAgree | apps/backend/src/shared/user-session.ts:11-12 | unset and plain whole numbers give the same number of seconds both ways |
| SessionTtl.SecondsInDigits | scripts/ops/rotate-jwt.ts:107 | any number of seconds in digits is both what is printed and how long tokens live, and zero means the default |
| SessionTtl.DecimalReads | apps/backend/src/shared/user-session.ts:11-12 | which texts `Number` takes for decimals, and their whole part, fraction and exponent |
| SessionTtl.RadixReads | apps/backend/src/shared/user-session.ts:11-12 | a number written with the mark of another radix is read as that number; without digits, or with one the radix lacks, it is none |
| SessionTtl.DefaultLifetimes | apps/backend/src/shared/admin-session.ts:10-11 | unset, admins have 7200 seconds and users 28800, both ways |
| SessionTtl.SuffixAndExponentMislead | apps/backend/src/shared/admin-session.ts:10-11 | for `8h` and `1e4` the tool prints 8 and 1 seconds while tokens live for the default and for 10000 |
| SessionTtl.PrintedWaitIsSafeIff | scripts/ops/rotate-jwt.ts:107-229 | when the operator waits as long as printed, some run rejects a live session token if and only if the configured text is not a good one |
| TargetSeparation.ValidExactlyFresh | scripts/ops/rotate-jwt.ts:151-174 | with the environment mirroring the files, the checks admit exactly the secrets that differ from all four rotated and three other secrets |
| TargetSeparation.TargetsNeverShare | scripts/ops/rotate-jwt.ts:29-64 | over every run on both targets, forced, interrupted or with torn writes, the pairs stay apart throughout if and only if no torn text is a secret of the other target or a compared one; then the two secrets within a target are equal exactly between the two writes |
| TargetSeparation.TearKeepsApartIff | scripts/ops/rotate-jwt.ts:222-223 | the same for one torn write |
| TargetSeparation.ValidateSessionSecrets | apps/backend/src/shared/session-secret.ts:88-174 | the loops over the variables with their early exits accept exactly the environments that the specification of the start-up check accepts |
| TargetSeparation.StagedSecretAtStartUp | apps/backend/src/shared/session-secret.ts:88-174 | from a steady state, half-written files are never accepted at start-up, and the staged ones exactly when the new secret is none that only start-up compares |
| TargetSeparation.StartUpAfterUnsharedRun | apps/backend/src/shared/session-secret.ts:88-174 | over every run that brings no such secret into the files, start-up accepts them exactly when no stage was cut in half (and, after torn writes, both current secrets are set) |
| TargetSeparation.ToolAcceptsStartUpRefuses | apps/backend/src/shared/session-secret.ts:150-155 | in a system with all secrets set and long enough for production, the one that encrypts the users' second factors can be staged, and start-up then refuses |
| TargetSeparation.CrashedStageCanBeRepeated | scripts/ops/rotate-jwt.ts:189-223 | a stage that crashed between its writes can be begun again without force and ends in the same state |
| TargetSeparation.StartUpAfterRun | apps/backend/src/shared/session-secret.ts:88-174 | the start-up check accepts the files of a run exactly when no stage was cut in half, both current secrets are set, as they are without torn writes, and no rotated secret equals one that only start-up compares |
| SecretPriming.SameResolver | scripts/ops/_shared.ts:237-280 | hydration looks for a configured secret's file where the rotation tool reads and writes it |
| SecretPriming.PrimedShowsSecretIff | scripts/ops/_shared.ts:262-280 | after hydration a variable shows the secret as the tool reads it exactly when its file was configured and it had no value, or there is no file, or it agreed with the file anyway |
| SecretPriming.MirrorsIff | scripts/ops/rotate-jwt.ts:151-174 | the checks on a new secret see both targets as their files hold them exactly when that is so for all four secrets |
| SecretPriming.HiddenSecretIsStaged | scripts/ops/rotate-jwt.ts:151-223 | with no variable set, the tool lets the user's secret pass for the admins and stages it |
| DrainTracker.DrainTracker.NotifyDrainWaiters | apps/backend/src/prize-engine-load-server.ts:43-52 | at a count of zero every waiter is answered once, in order, although each deletes itself during the iteration |
| DrainTracker.DrainTracker.MarkRequestDone | apps/backend/src/prize-engine-load-server.ts:53-64 | a request is subtracted at most once, never below zero, and waiters are told |
| DrainTracker.DrainTracker.WaitForActiveRequestsToDrain | apps/backend/src/prize-engine-load-server.ts:65-85 | a promise is answered at once at zero and waits with a timer otherwise |
| DrainTracker.DrainTracker.OnTimeout | apps/backend/src/prize-engine-load-server.ts:71-74 | a timer answers its own waiter with false and removes it; a cleared timer does nothing |
| DrainTracker.TimerAnswers | apps/backend/src/prize-engine-load-server.ts:71-74 | a timer takes its waiter from between the others, whose order stays, and answers it with false at the current count; for anybody else it does nothing |
| DrainTracker.CompletionTells | apps/backend/src/prize-engine-load-server.ts:43-64 | the first completion takes one off, down to zero, where all who wait are answered with true in order; later ones do nothing |
| DrainTracker.AskingWaits | apps/backend/src/prize-engine-load-server.ts:65-85 | who asks at zero is answered at once, others wait behind those who asked before |
| DrainTracker.DrainTracker.OnRequest | apps/backend/src/prize-engine-load-server.ts:88-94 | counts every request but health checks |
| DrainRuns.CountIsLowerBound | apps/backend/src/prize-engine-load-server.ts:88-106 | on every interleaving of the hooks the counter never exceeds the requests in flight |
| DrainRuns.ExactIffNoStray | apps/backend/src/prize-engine-load-server.ts:88-97 | the counter equals the requests in flight at every moment of a run if and only if no health check completes while it is positive |
| DrainRuns.ExactWithoutHealth | apps/backend/src/prize-engine-load-server.ts:88-106 | without health checks the counter is always exact |
| DrainRuns.DrainsReportedRightly | apps/backend/src/prize-engine-load-server.ts:43-97 | in a run in which no health check completes at a positive counter, every drain is reported while no request is in flight |
| DrainRuns.ReliableIffExact | apps/backend/src/prize-engine-load-server.ts:41-106 | after any run, all further reports are right in every continuation without such completions if and only if the counter is exact now |
| DrainRuns.HealthCheckHidesRequest | apps/backend/src/prize-engine-load-server.ts:89-97 | a run in which a drain is reported with a request in flight |
| DrainRuns.AnswersStep | apps/backend/src/prize-engine-load-server.ts:43-85 | true is only answered at a count of zero, false only by the waiter's own timer at a positive count; reaching zero answers everyone who waits; answers are final |
| DrainRuns.TimerStep | apps/backend/src/prize-engine-load-server.ts:71-74 | in every reachable state, a timer that goes off for a waiter gives exactly one answer, false at the positive count, and leaves the others in order; for anybody else nothing happens |
| DrainRuns.TimerEndsTheWait | apps/backend/src/prize-engine-load-server.ts:65-85 | in every run in which the timer of a waiter goes off after it came, it has been answered at the end |
| DrainRuns.EveryReachableState | apps/backend/src/prize-engine-load-server.ts:41-106 | in every reachable state a count of zero means nobody waits, and every promise waits or was answered exactly once |
| WalletLedger.BuildWalletLedgerSeedEntries | apps/mobile/scripts/wallet-ledger-seed.ts:34-117 | throws exactly for a negative balance, and else returns the specified entries |
| WalletLedger.ReplayInvertsSeeding | apps/backend/src/modules/wallet/invariant-service.ts:235-313 | for wallets in whole cents the invariant sums over the seeded entries give back every balance if and only if bonus, locked, wagered and funding are non-negative |
| WalletLedger.ShownOfCents | apps/backend/src/shared/money.ts:5-8 | the money texts of a wallet in whole cents show exactly its balances |
| WalletLedger.EntriesChain | apps/mobile/scripts/wallet-ledger-seed.ts:50-99 | for any precision the withdrawable entries start at zero, chain without a gap, balance within a cent and end at the rounded balance |
| WalletLedger.BonusStartsAtZero | apps/mobile/scripts/wallet-ledger-seed.ts:102-114 | for every wallet, a bonus has one entry, the last, which starts at zero and ends at the rounded bonus; all entries carry the reference |
| WalletLedger.OneEntryPerPositiveAmount | apps/mobile/scripts/wallet-ledger-seed.ts:50-114 | one entry each for the funding, the locked, the wagered and the bonus amount, if positive, and no other |
| WalletLedger.HalvesRoundAway | apps/backend/src/shared/money.ts:7-8 | half a cent is rounded away from zero, for either sign |
| WalletLedger.ReplayWithinRounding | apps/mobile/scripts/wallet-ledger-seed.ts:50-117 | the signed amounts add up to the withdrawable balance within 0.015, the other balances replay to their rounding |
| WalletLedger.ReplayShowsWalletIff | apps/mobile/scripts/wallet-ledger-seed.ts:34-117 | for every wallet the replay gives what the wallet shows if and only if no part shows a negative amount and the rounded funding is the sum of the rounded parts |
| WalletLedger.ReplayDriftsUnless | apps/mobile/scripts/wallet-ledger-seed.ts:34-117 | for the wallets that the builder accepts only the rounding of the funding decides |
| WalletLedger.RoundingDrifts | apps/backend/src/shared/money.ts:7-8 | a wallet whose replay differs from what it shows |
| WalletRepair.LedgerDb.SeedWalletLedger | apps/backend/scripts/repair-local-dev-state.ts:38-103 | appends exactly the specified entries to the user's rows, for wallets of any sign |
| WalletRepair.LedgerDb.SeedManually | apps/backend/scripts/seed-manual.ts:172-246 | its own cursor steps write the same amounts and balances as the other copies, and nothing for a negative wallet |
| WalletRepair.LedgerDb.ReseedWalletLedger | apps/mobile/scripts/wallet-ledger-seed.ts:119-131 | replaces the user's rows by the seeded ones; for a negative wallet the rows are gone and it throws |
| WalletRepair.LedgerDb.RepairWalletDrift | apps/backend/scripts/repair-local-dev-state.ts:105-159 | rows and report after the loop are the specified ones, for any list of mismatches |
| WalletRepair.RowsAfterRepair | apps/backend/scripts/repair-local-dev-state.ts:131-159 | listed users with a wallet and no rows get the seeded rows once, however often listed; nobody else is touched |
| WalletRepair.ReportedCount | apps/backend/scripts/repair-local-dev-state.ts:131-158 | how often each user is reported as repaired |
| WalletRepair.ReportedInOrder | apps/backend/scripts/repair-local-dev-state.ts:131-158 | of users listed once each, those with a wallet and no rows are reported, in the order of the list |
| WalletRepair.RepairedUnless | apps/backend/scripts/repair-local-dev-state.ts:131-165 | a listed user is mismatched afterwards if and only if it was before and has rows or a wallet that no seeded rows add up to |
| WalletRepair.NonNegativeWalletRepaired | apps/backend/scripts/repair-local-dev-state.ts:131-159 | a non-negative wallet without rows ends with a ledger that replays to it |
| WalletRepair.OthersUntouched | apps/backend/scripts/repair-local-dev-state.ts:138-145 | users who are not listed, have rows or have no wallet keep their rows |
| WalletRepair.SecondRepairChangesNothing | apps/backend/scripts/repair-local-dev-state.ts:131-159 | repairing again changes no rows |
| OpsArgs.ParseArgs | scripts/ops/_shared.ts:61-100 | the index loop computes the specified parse |
| OpsArgs.TextApartReads | scripts/ops/_shared.ts:77-93 | `--key value` in front of any rest is read as that flag and takes those two arguments, if and only if the key has no `=`, is not empty and does not begin with `no-`, and the value is not empty and has no dashes in front |
| OpsArgs.TextJoinedReads | scripts/ops/_shared.ts:77-87 | `--key=value` in front of any rest is read as that flag if and only if the key has no `=` and does not begin with `no-` |
| OpsArgs.SwitchOnReads | scripts/ops/_shared.ts:77-96 | a lone `--key` is a switch if and only if it is a plain key and nothing follows that could be its text |
| OpsArgs.PrintedReads | scripts/ops/_shared.ts:68-96 | one printed flag in either form, before another flag or `--`, reads back and takes all that was printed for it if and only if it is printable |
| OpsArgs.ParseUndoesPrint | scripts/ops/_shared.ts:61-100 | every map of printable flags, printed in any order and each text as `--key=value` or `--key value`, and any positionals parse back to themselves |
| OpsArgs.LeadingWordDistributes | scripts/rotate-secret.ts:502-541 | a leading positional is the first positional of the parse and otherwise changes nothing |
| OpsArgs.DispatchDropsTheWordIff | scripts/rotate-secret.ts:502-541 | passing on the arguments without the first one drops the dispatched word if and only if it stands first |
| EnvFile.QuotedLineReads | scripts/ops/_shared.ts:166-212 | a quoted value, with or without `export`, reads back whatever it contains if and only if it stays on one line; else the line defines nothing |
| EnvFile.PlainLineReadsIff | scripts/ops/_shared.ts:166-212 | an unquoted value reads back if and only if it is one trimmed line, not quoted, without an inline comment |
| EnvFile.InlineCommentIsDropped | scripts/ops/_shared.ts:166-182 | of an unquoted value with an inline comment exactly the text before the gap in front of the comment is kept |
| EnvFile.CommentDefinesNothing | scripts/ops/_shared.ts:196-213 | blank lines and comment lines define nothing, however far they are indented |
| EnvFile.WhiteSpaceAround | scripts/ops/_shared.ts:196-213 | white space in front of the name and around the equals sign does not matter |
| EnvFile.PrintedFileReads | scripts/ops/_shared.ts:196-213 | a file of quoted definitions, with either line end, gives back all of them in order |
| OpsEnv.FirstDefinitionWins | scripts/ops/_shared.ts:196-213 | after loading, each variable has its initial value if it had one, and else its first definition |
| OpsEnv.OpsEnvironment.LoadEnvFile | scripts/ops/_shared.ts:184-214 | going through the lines of a file loads its definitions, and has the same effect with and without the check for files that were loaded before |
| OpsEnv.OpsEnvironment.HydrateEnvFromFileRefs | scripts/ops/_shared.ts:262-280 | the loop hydrates along some order of the variables; when the roots do not matter, a target gets the text of its file exactly when it had no value |
| OpsEnv.OrdersAgreeIff | scripts/ops/_shared.ts:216-280 | all orders of the variables give one environment if and only if every pending target has the same value under the roots before and after any of the root variables |
| OpsEnv.OrderDoesNotMatter | scripts/ops/_shared.ts:216-280 | then every target gets the text of its file exactly when it had no value |
| OpsEnv.FixedResolverAgrees | scripts/ops/_shared.ts:237-280 | all orders agree for a resolver that ignores the roots, whatever is hydrated |
| OpsEnv.StayingRootsAgree | scripts/ops/_shared.ts:216-280 | all orders agree when no variable of the secret root is hydrated |
| OpsEnv.OrderCanMatter | scripts/ops/_shared.ts:216-280 | two orders with different results, when the secret root comes from a file |
| OpsEnv.HydrationIsDetermined | scripts/ops/_shared.ts:262-280 | the condition of hydration leaves one environment only |
| OpsEnv.OpsEnvironment.PrimeOpsEnvironment | scripts/ops/_shared.ts:282-310 | the first call loads the listed files, or the default ones under the project root, in order and hydrates; later calls do nothing |
| OpsEnv.OpsEnvironment.RepeatedNamesDoNotMatter | scripts/ops/_shared.ts:289-303 | dropping repeated file names leads to the same environment |
| OpsEnv.SplitUndoesJoin | scripts/ops/_shared.ts:121-126 | a list of names written with commas or line breaks is read back |
| OpsEnv.SplitListPieces | scripts/ops/_shared.ts:121-126 | any list is read piece by piece between commas and line breaks, blank pieces dropped and others trimmed |
| OpsEnv.EnvFilesChosen | scripts/ops/_shared.ts:282-303 | the default files exactly when neither variable names any, and else the listed ones followed by the single one, each once |
| OpsEnv.DefaultsInOrder | scripts/ops/_shared.ts:293-302 | the eight default files, by name and in order, under the project root |
| SlotMachine.RankPrizesSorts | apps/mobile/src/slot-machine.ts:114-121 | ranking orders by reward descending, then id, and keeps every prize |
| SlotMachine.BuildPrizeSymbolMap | apps/mobile/src/slot-machine.ts:123-132 | the loop fills the specified map |
| SlotMachine.SymbolsIgnoreOrder | apps/mobile/src/slot-machine.ts:114-132 | with distinct ids, every permutation of the catalogue gives the same symbols |
| SlotMachine.SymbolByRank | apps/mobile/src/slot-machine.ts:123-132 | the i-th ranked prize has the i-th symbol, with period six |
| SlotMachine.SymbolsDistinctUpToSix | apps/mobile/src/slot-machine.ts:123-132 | all prizes have different symbols if and only if there are at most six |
| SlotMachine.PoolContents | apps/mobile/src/slot-machine.ts:134-145 | the pool holds the symbols of the prizes in the order of the catalogue, then the ones that never win, each where it comes first; all symbols for an empty catalogue |
| SlotMachine.PickFromIndex | apps/mobile/src/slot-machine.ts:102-103 | with a number in [0, 1) each item is picked on an interval of its own, without wrap-around |
| SlotMachine.BuildWindow | apps/mobile/src/slot-machine.ts:147-155 | three distinct symbols around the given centre, the outer two from the pool |
| SlotMachine.BuildMissLine | apps/mobile/src/slot-machine.ts:157-164 | a pair and a different third symbol from the pool |
| SlotMachine.BuildSlotFinale | apps/mobile/src/slot-machine.ts:195-233 | three of a kind exactly for a win, the line fits the tone, each reel shows the line's symbol in a window without repeats, and which random numbers pick which symbols |
| SlotMachine.CreateRollingReels | apps/mobile/src/slot-machine.ts:178-193 | exactly the reels below the locked count are the finale's; each other one is a clean window on three random numbers of its own |
| BirthDate.DayNumbersDiffer | apps/shared-types/src/auth.ts:33-38 | two dates with the same day number are the same date |
| BirthDate.NextDay | apps/shared-types/src/auth.ts:33-38 | the day number goes up by one from each date to the next, over months and years, from zero at 1970-01-01 |
| BirthDate.AcceptsExactlyDates | apps/shared-types/src/auth.ts:28-39 | accepted are exactly the texts that name a Gregorian date in the years 0 to 9999, whether the engine rejects overlong days or rolls them over |
| BirthDate.LongDays | apps/shared-types/src/auth.ts:33-38 | a day its month does not have is no date for one kind of engine and a day of the next month for the other |
| DeviceHash.HashIsPolynomial | apps/mobile/src/device-fingerprint.ts:61-68 | the loop computes the polynomial of the seed and the code units modulo 2^32 |
| DeviceHash.HashConcat | apps/mobile/src/device-fingerprint.ts:61-68 | hashing a concatenation continues from the first part's value |
| DeviceHash.LaneReadsBack | apps/mobile/src/device-fingerprint.ts:67 | a lane is exactly eight hex digits that read back as the hash |
| DeviceHash.HashLoop | apps/mobile/src/device-fingerprint.ts:61-68 | the loop computes the specified hash, with every intermediate in the range in which doubles are exact |
| DeviceHash.MobileFallbackHash | apps/mobile/src/device-fingerprint.ts:70-73 | four lanes of hex digits, each reading back as the polynomial of its seed |
| DeviceHash.WebFallbackHash | apps/frontend/lib/device-fingerprint.ts:24-31 | eight hex digits that read back as the base-31 polynomial |
| TextSlugs.NormalizedExactly | apps/shared-types/src/api.ts:7-12 | the codes returned are exactly the non-empty runs of A-Z and 0-9 joined by single underscores, and those are returned unchanged |
| TextSlugs.CodeJoinsWords | apps/shared-types/src/api.ts:7-12 | the code of any text: its words, joined by underscores, or `DOMAIN_ERROR` without any |
| TextSlugs.NormalizeIdempotent | apps/shared-types/src/api.ts:7-12 | normalizing twice is normalizing once |
| TextSlugs.TestIdIsSlug | apps/mobile/src/testing.ts:1-13 | a test id is empty or a slug |
| TextSlugs.TestIdPartByPart | apps/mobile/src/testing.ts:1-13 | each part puts its words, joined by dashes, in front; missing parts and parts without words count for nothing |
| TextSlugs.NestingFlattens | apps/mobile/src/testing.ts:1-13 | a test id used as a part counts as the parts it was built from |

## Left out

- Lone surrogates: a text is a sequence of Unicode scalar values, so the inputs on which `encodeURIComponent` throws are not modelled.
- Paths inside `new URL`: how the URL parser rewrites a path is an arbitrary function that fixes `/login`, `/legal` and `/portal`. Which host names are valid, and which one is the portal's own, is an arbitrary function too; what happens on another host is not part of a chain.
- Session lookup and token validity of the portal: their result is the fixed outcome of a chain. The `jwt` and `session` callbacks only copy fields.
- Paths of secret files: where a path leads is an arbitrary function (dot segments, links), fixed while the tool works; directories, permissions and the choice of the secret root are not modelled.
- Choosing the new secret (`--value`, `--value-file`, `--generate`) and printing plans or status: `StageRotation` takes the resolved, trimmed secret.
- TokenDrain.RotationIsSafe: session tokens only. Realtime tokens have a lifetime of their own that the tool does not read; enrollment tokens for second factors and KYC preview tokens are signed with the same secrets but verified with the current one alone, so a rotation ends them at once. Every deploy replaces all signers and verifiers at once, as the rotation procedure prescribes; a deploy that mixes old and new processes is not covered, and neither are runs with `--force`.
- SessionTtl.PrintedCoversIff: `Number` and `parseInt` have exact values here, so lifetimes that doubles round (to zero or infinity, say) are not covered; the tool and the servers are taken to see the same text. With an unlimited lifetime no token can be signed, and `PrintedWaitIsSafeIff` does not speak of it.
- TargetSeparation.TargetsNeverShare: one rotation process runs at a time, and its environment shows the secrets as the files hold them; `SecretPriming.MirrorsIff` says when it does.
- TargetSeparation.StartUpAfterRun: only the comparisons that involve a rotated secret; those among the other secrets and the production length checks do not depend on the rotation.
- The shutdown sequence around the drain, and real time: a timer is an event that may fire whenever it has not been cleared.
- Decimal texts: a money text is the whole number of cents that it shows, so the sign of a negative zero is not represented, and amounts are exact rationals without the precision limit of decimal.js.
- WalletRepair.RepairedUnless: the ledger holds only the four kinds of entries that seeding writes, so unknown entry types do not arise.
- OpsEnv.OrdersAgreeIff: which directories exist, and so how the root variables lead to a secret root, is part of an arbitrary resolver that stays the same while variables are hydrated.
- SlotMachine.RankPrizesSorts: rewards are numbers; a reward text that is not numeric makes the comparator inconsistent and the order engine-dependent.
- TextSlugs.NormalizedExactly: case mapping is an arbitrary function that leaves finished codes alone, which covers Unicode case mapping but does not say what it does to other letters.
- Draws, games, payments, billing, SaaS keys, KYC, administration pages, database schema and migrations: not part of this model.
