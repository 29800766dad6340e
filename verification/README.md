# Verified model of Jackline's stateful core

This project models the parts of Jackline whose correctness depends on state,
on interleavings or on hand-written text scanning, and proves what they keep.

- **Rate limiting** (`FixedWindow`, `MemoryStore`, `RedisStore`, `RedisRuns`,
  `RedisClient`, `RedisAnswers`, `Policies`, `Identities`, `Limiter`, `Sorting`).
  Fixed-window counters in a process-local map and in Redis. The map is a class
  stepped at clock times. The Redis protocol (INCR, EXPIRE when the reply was 1,
  TTL) is a transition system over any number of clients, with time, expiry and
  client crashes as steps of their own. Both are shown to produce logs of one form,
  for which the sliding-rate bound is proved once.
- **Template expressions** (`TemplateExpr`, `TemplateTree`). The recursive
  evaluator with its three scans, terminating on every string, and the theorem
  that evaluating the printed form of a tree, with any spacing and grouping,
  gives the tree's meaning.
- **Stream tracker** (`StreamTracker`). Lazy eviction against an eager specification.
- **Transcript stream** (`EventStream`). The buffer, split and dispatch loop over
  arbitrarily cut text (a part of section 9.2 of the WHATWG HTML Living Standard).
- **Personal credential store** (`SecretBox`, `GatewayToken`, `CredentialStore`,
  `TokenRuns`, `CommandOutcomes`, `Home`). Config, secrets file, key file and keychain. A command is the
  sequence of states after each of its writes; a run is any sequence of commands,
  each cut off by a crash after any number of writes, under any keychain outages.
  `Home` holds the commands as methods that write step by step: each passes
  through exactly the states of its specification, and from the moment `init` has
  succeeded keeps the invariant that the store is safe, and was at every write.
- **Supporting code** (`ToolPermissions`, `ToolPolicy`, `JsonText`, `HtmlEscape`,
  `McpName`, `Text`). Merging of tool permissions, tool toggles and their
  fingerprint, HTML escaping, tool names.

`Wrappers` holds the option and result datatypes, `Text` trimming, splitting and joining.

## What the proofs found

- An interval of `k` window lengths holds at most `(k + 1) * limit - 1` allowed
  requests, one fewer than the familiar bound, and no smaller bound holds:
  `MemoryStore.WorstCase` is a run that reaches it for every limit, window and `k`.
- A client that dies between INCR and EXPIRE leaves the key without an expiry for
  good. `RedisRuns.RecoversIffCreatorAlive` gives the exact condition for recovery.
- The comment at `apps/cli/src/lib/masterKey.ts:96-99`, and the test at
  `apps/cli/src/lib/masterKey.security.test.ts:68-103`, say that a key file is
  migrated into the keychain when no key storage is recorded. The code resolves
  that case to the file first, so it never migrates
  (`CredentialStore.UnrecordedStorageNeverMigrates`), and the config write inside
  the migration is never made (`CredentialStore.MigrationMakesTwoWrites`).
- `ensureGatewayToken` treats every failed lookup as a missing token. An outage
  of the keychain that lasts for that one lookup silently replaces a working
  token (`CredentialStore.BriefOutageRotatesToken`); the token is kept exactly
  when the lookup can read the master key (`CredentialStore.EnsureKeepsTokenIff`).
- `init` removes its secrets file when the key cannot be stored so that it can be
  tried again. When it fails later, in minting the token, the config stays and a
  second `init` without `--force` is refused (`CredentialStore.FailedInitCanBeRetriedIff`).
- A lookup in the keychain that fails silently makes a read migrate the key file
  into the keychain, where the next read, failing alike, does not find it.
  `CredentialStore.ReadTwice` says exactly when a successful read can be repeated.
- Waiting as `Retry-After` says does not guarantee admission: other requests for
  the same key can come first once the window has closed
  (`Limiter.RetryCanBeOvertaken`). `Limiter.RetryAfterIsHonest` gives the exact
  condition: fewer than `limit` of them did.
- Quoted text in a template is not protected from the scan for equality
  operators: `'a==b'` is read as a comparison (`TemplateTree.QuotedEqualityIsMisread`).
  `TemplateTree.QuotedTextIff` says exactly which quoted texts are read as
  themselves; with balanced brackets they are those in which no `==` or `!=`
  starts outside the brackets, not counting one right behind another `=` or `!`
  (`TemplateTree.BalancedQuotedTextIff`), so `'a=b'` is read correctly.
- Different identities can share a counter. Any two or more keys are hashed from
  the same text as the one key that is their join with `|`, and no key at all from
  the same text as the key `anonymous`. `Identities.AmbiguousIff` says exactly
  which identities can be confused with another, `Identities.IdentitiesShareTextIff`
  exactly which pairs are.
- A limit override between 0 and 1 becomes a limit of 0, which the bounds below cover.
- The order of permission rows decides whether a tool may be used exactly when no
  row denies it and some of its rows, but not all, are active on an active server
  (`ToolPermissions.OrderDoesNotMatterIff`).
- A server segment with `__` inside makes the tool name ambiguous, and this is
  the only case (`McpName.SplitRecoversIff`).

## Model

| member | source | states |
|---|---|---|
| FixedWindow.SlidingBound | packages/quotas/src/limiter.ts:39-55 | for every log of a fixed-window counter and every placement of an interval of `k` windows, at most `(k+1)*limit-1` allowed requests (none if the limit or `k` is 0) |
| FixedWindow.OneWindowBound | packages/quotas/src/limiter.ts:49-55 | one window admits at most `limit`, and one fewer if counting starts after it opened |
| FixedWindow.CountsAreGapFree | packages/quotas/src/limiter.ts:45-49 | the counts of a window are 1, 2, 3, ... in order |
| MemoryStore.MemoryQuotaStore.Increment | packages/quotas/src/stores/memory.ts:13-29 | the reply and the map are those of the history of requests with this one added |
| MemoryStore.WindowsMatchHistory | packages/quotas/src/stores/memory.ts:10-29 | at any point of any run, each key's entry counts its own requests since the one that opened its window, and closes when that window does |
| MemoryStore.ReplyMatchesHistory | packages/quotas/src/stores/memory.ts:13-29 | each reply is the number of that key's requests since its window opened, and the time left rounded up |
| MemoryStore.KeysAreIndependent | packages/quotas/src/stores/memory.ts:10-29 | the replies for one key in any interleaved run equal those of the run projected onto it |
| MemoryStore.LogIsWindowLog | packages/quotas/src/stores/memory.ts:16-28 | with a clock that does not go back, the log of one key is that of a fixed-window counter |
| MemoryStore.SlidingRate | packages/quotas/src/stores/memory.ts:13-29 | the sliding-rate bound for every run and every key in it |
| MemoryStore.TtlRoundsUp | packages/quotas/src/stores/memory.ts:17-28 | the time to wait is the window's rest rounded up, between 1 and the window |
| MemoryStore.WindowStays | packages/quotas/src/stores/memory.ts:17-28 | until its closing time an entry stays, whatever requests come for other keys at whatever time, and its count never falls |
| MemoryStore.RetryAfterIsExact | packages/quotas/src/stores/memory.ts:17-28 | after a denial at `t` with wait `r` the window closes after `t+1000*(r-1)` and by `t+1000*r`; requests for the key up to the former are denied; a later one counts itself and the requests for the key since the close, so the first opens a fresh window; other keys do not matter |
| MemoryStore.LateWindow | packages/quotas/src/stores/memory.ts:17-28 | the first request after a close opens the next window, whose count is the number of requests for the key since, for as long as it is open |
| MemoryStore.CeilingIsAttained | packages/quotas/src/stores/memory.ts:13-29 | for every limit, window and `k` there is a run in which the sliding-rate bound is reached exactly |
| RedisClient.RedisQuotaStore.Increment | packages/quotas/src/stores/redis.ts:34-43 | with any steps of others between its commands and any reply TTL may give, a call is a run of the protocol, returns the count of its own INCR and the time the key had left when asked, and is logged as finished with its reply |
| RedisClient.RedisQuotaStore.Meanwhile | packages/quotas/src/stores/redis.ts:34-43 | what others do between two commands is a run of the protocol that leaves the waiting client where it is |
| RedisStore.StepKeepsInv | packages/quotas/src/stores/redis.ts:34-43 | every single step of any client, of time and of expiry keeps the protocol invariant |
| RedisRuns.ExpireLandsOnItsOwnIncarnation | packages/quotas/src/stores/redis.ts:36-38 | in every run, crashes included, an EXPIRE meets the live key its own client created, which has no expiry yet, and is the only one in flight |
| RedisRuns.NoExpiryMeansOneCreator | packages/quotas/src/stores/redis.ts:35-38 | in crash-free runs a live key lacks an expiry exactly while one client, and only one, is between INCR and EXPIRE |
| RedisRuns.CountsWithinAnIncarnation | packages/quotas/src/stores/redis.ts:35-41 | within one life of the key the counts are distinct and gap-free, and no two finished calls return the same |
| RedisRuns.IncarnationBound | packages/quotas/src/stores/redis.ts:34-43 | one life of the key admits at most `limit` requests, also when its creator died |
| RedisRuns.SlidingRate | packages/quotas/src/stores/redis.ts:34-43 | the sliding-rate bound in every interleaving, crashes included |
| RedisAnswers.AnswersAreBounded | packages/quotas/src/stores/redis.ts:34-43 | the bound holds of finished calls, each of which has an INCR of its own |
| RedisRuns.WaitsAreWithinTheWindow | packages/quotas/src/stores/redis.ts:39-40 | every wait handed out is between 1 and the window, also for the TTL replies -1, -2 and 0 |
| RedisRuns.WaitsTellTimeLeft | packages/quotas/src/stores/redis.ts:39-40 | a wait is the key's time left to within a second, or the whole window when less than a second or no expiry is left |
| RedisRuns.RecoversIffCreatorAlive | packages/quotas/src/stores/redis.ts:35-38 | a key without expiry can disappear again if and only if its creator is still alive; otherwise every later count exceeds the present one |
| RedisRuns.CrashOrphansTheKey | packages/quotas/src/stores/redis.ts:35-38 | a crash between INCR and EXPIRE does leave such a key |
| Policies.WindowReadsBack | packages/quotas/src/policies.ts:20-43 | every printed number with every unit, case and padding is read as that many seconds, and zero is refused |
| Policies.WindowIff | packages/quotas/src/policies.ts:20-43 | a text is read as a window exactly when it is digits with a suffix none/s/m/h/d in either case and padding, of that many times 1/1/60/3600/86400 seconds, not zero |
| Policies.ParseWindowSeconds | packages/quotas/src/policies.ts:20-43 | any window that is read is at least a second |
| Policies.ResolveQuotaPolicies | packages/quotas/src/policies.ts:49-80 | for each bucket, with the names of its variables written out: a limit that is not blank, finite and positive is floored, a written window counts, anything else leaves that field's default; usable defaults stay usable |
| Policies.OtherVariablesDoNotMatter | packages/quotas/src/policies.ts:49-80 | a bucket's policy depends on its own two variables only |
| Policies.DefaultsAreUsable | packages/quotas/src/policies.ts:5-13 | the defaults satisfy what the limiter needs |
| Limiter.OrderIsIgnored | packages/quotas/src/limiter.ts:21-28 | the store key depends only on the bucket and the multiset of trimmed non-blank identity keys |
| Identities.PaddingIsIgnored | packages/quotas/src/limiter.ts:21-25 | padding a key, or inserting a blank one anywhere, changes nothing |
| Limiter.StoreKeysAgreeIff | packages/quotas/src/limiter.ts:40-42 | store keys agree exactly for the same bucket and identities of the same digest; so different buckets never share one |
| Identities.IdentitiesShareTextIff | packages/quotas/src/limiter.ts:21-28 | for any two identities, the hashed texts agree exactly when the sorted keys, cut at every `\|`, are the same pieces (no key counting as `anonymous`) |
| Identities.IdentitiesAreApart | packages/quotas/src/limiter.ts:21-28 | for keys without `\|`, the texts agree exactly for equal multisets of keys, and for no key against the one key `anonymous` |
| Identities.JoinedKeyCollides | packages/quotas/src/limiter.ts:22-25 | any two or more keys share their text with the single key that is their join |
| Identities.AmbiguousIff | packages/quotas/src/limiter.ts:21-28 | an identity shares its text with a different one exactly when it has no or several keys, or its one key is `anonymous` or is cut by some `\|` into two trimmed keys in sorted order |
| Limiter.AnswersAreConsistent | packages/quotas/src/limiter.ts:44-72 | for counted requests `allowed` means within the limit, `remaining` is what is left and a denial names the store's wait; on a store failure a limiter that fails open allows with the full limit remaining, one that fails closed denies for a whole window |
| Limiter.QuotaLimiter.Consume | packages/quotas/src/limiter.ts:37-73 | one request is counted under the right key and window and answered from its count; when the store throws nothing is counted, and it is allowed exactly when failing open |
| Limiter.ConsumeAll | packages/quotas/src/limiter.ts:37-73 | over a run with store failures anywhere, each call is answered from the requests counted before it, and a failing one is allowed exactly when failing open |
| Limiter.FailuresLeaveNoTrace | packages/quotas/src/limiter.ts:43-72 | a call that reaches the store is answered as if no other had failed; one that does not is answered alike whatever was counted |
| Limiter.RateIsBounded | packages/quotas/src/limiter.ts:39-55 | the requests a limiter has answered with `allowed` for one key in any `k` windows stay within the bound, over the in-memory store |
| RedisAnswers.RedisRateIsBounded | packages/quotas/src/limiter.ts:39-55 | the same over Redis: the `allowed` answers of all replicas together, in every interleaving, crashes included |
| Limiter.RetryAfterIsHonest | packages/quotas/src/limiter.ts:49-55 | a denied caller who comes back after the wait it was told, before the following window closes, is admitted exactly when fewer than `limit` requests for its key came since the denying window closed; a second less is denied |
| Limiter.RetryCanBeOvertaken | packages/quotas/src/limiter.ts:49-55 | with limit 1 and a window of 2 seconds, requests at 0, 500 (denied, wait 2) and 2000 leave the caller of 500 denied again at 2500 |
| Sorting.SortedIsUnique | packages/quotas/src/limiter.ts:21-25 | two sorted lists with the same elements are equal, so sorting is canonical |
| Sorting.SortSorts | packages/quotas/src/limiter.ts:21-25 | sorting yields a sorted permutation |
| Sorting.LeqIsLexicographic | packages/quotas/src/limiter.ts:21-25 | the order of keys is the lexicographic one |
| Text.IsSpaceIff | packages/quotas/src/limiter.ts:23 | the characters that `trim` removes, one by one |
| Text.SplitJoin | packages/quotas/src/limiter.ts:22-25 | splitting a joined list gives the list back when no part holds the separator |
| TemplateExpr.ParensWrapWhole | _design_preview/support.js:237-247 | the loop decides whether a parenthesis before the last character closes the first |
| TemplateTree.WrapsWholeMeansMatched | _design_preview/support.js:237-247 | on balanced text the check holds exactly when the first `(` is matched by the final `)` |
| TemplateExpr.FindTopLevelEquality | _design_preview/support.js:248-262 | the loop finds the first equality operator outside all brackets that has something to its left, with the right operator |
| TemplateExpr.ResolvePath | _design_preview/support.js:263-294 | the loop over dots and nested brackets follows the path step by step from the head |
| TemplateExpr.ResolveExpr | _design_preview/support.js:205-236 | the evaluator with its loops terminates on every string and equals its recursive reading |
| TemplateTree.Evaluates | _design_preview/support.js:205-294 | for every tree, every spacing and grouping, and every host, evaluating the printed form gives the tree's meaning, which is stated in the host's own operations |
| TemplateTree.NameGivesMember | _design_preview/support.js:263-267 | a name gives that member of the values, or `undefined` when they are nullish |
| TemplateTree.LastStepGivesMember | _design_preview/support.js:268-291 | each further step gives that member of what the path before it gives, or `undefined` when that is nullish |
| TemplateTree.EqualityEvaluates | _design_preview/support.js:211-224 | the four comparisons give the strict and the loose equality of their sides and their negations |
| TemplateTree.NumberTextIff | _design_preview/support.js:204-230 | exactly which texts are numbers |
| TemplateTree.BlankIsUndefined | _design_preview/support.js:206-207 | blank text gives `undefined` |
| TemplateTree.TopLevelIff | _design_preview/support.js:248-262 | exactly where a comparison may be split: at an operator outside all brackets with something to its left |
| TemplateTree.StepsResolve | _design_preview/support.js:263-294 | printed path steps are followed from wherever they stand in a text |
| TemplateTree.EqualityFound | _design_preview/support.js:248-262 | the first top-level equality of a printed comparison is its own operator |
| TemplateTree.QuotedTextIff | _design_preview/support.js:210-232 | a quoted text is read as itself exactly when the equality scan finds no operator in it |
| TemplateTree.BalancedQuotedTextIff | _design_preview/support.js:210-232 | for balanced brackets, exactly when no operator starts outside them |
| TemplateTree.QuotedEqualityIsMisread | _design_preview/support.js:248-262 | `'a==b'` is read as a comparison of two undefined halves |
| StreamTracker.StreamTracker.Push | _design_preview/support.js:1661-1665 | the history gains this push, and the map stays in step with it |
| StreamTracker.PushDecides | _design_preview/support.js:1661-1665 | a push decides about its name from then on, except one for `dc-model`, which changes nothing |
| StreamTracker.StreamTracker.LiveOne | _design_preview/support.js:1651-1659 | a read equals the eager specification and leaves no trace in later ones |
| StreamTracker.StreamTracker.LiveAny | _design_preview/support.js:1666-1670 | with a clock that moves during the walk, a name live at its end is not missed and none is reported that was not live at its start |
| StreamTracker.LiveAnyAt | _design_preview/support.js:1666-1670 | with one clock reading the answer is exact |
| StreamTracker.RunCalls | _design_preview/support.js:1649-1671 | over any run of pushes and reads each read answers from the pushes alone |
| EventStream.SplitContinues | apps/web/src/lib/jackline-api.ts:799-801 | splitting more text goes on exactly where the unfinished last piece left off |
| EventStream.FrameIsIsolated | apps/web/src/lib/jackline-api.ts:802-839 | a frame put between two others adds at most one call between theirs and changes none of them; the exact cases in which it adds none |
| EventStream.EventsAreDelivered | apps/api/src/features/agents/handler.ts:189-221 | printed events parse to exactly the handler calls they are sent for |
| EventStream.ReceiveFeed | apps/web/src/lib/jackline-api.ts:793-841 | end to end: however the feed is cut, each snapshot, entry, thread list and error reaches its own handler with what it carries, once and in order, and signs of life reach none |
| EventStream.TranscriptReader.DispatchChunk | apps/web/src/lib/jackline-api.ts:802-839 | one frame makes the call its fields ask for, or none |
| EventStream.TranscriptReader.Read | apps/web/src/lib/jackline-api.ts:796-840 | after each chunk the buffer is the unfinished piece and every finished one has been dispatched once, in order |
| EventStream.ReadAll | apps/web/src/lib/jackline-api.ts:793-841 | however the text is cut, the calls are those of splitting the whole at blank lines and dropping the last piece |
| EventStream.PrintedStreamDecodes | apps/web/src/lib/jackline-api.ts:799-810 | printed messages followed by an unfinished rest split back into exactly themselves |
| EventStream.MessageDecodes | apps/api/src/features/agents/handler.ts:189-192 | a printed frame, with any padding and any other lines, holds no blank line and decodes to its last event, or `message`, and all its data run together |
| EventStream.ReadPrinted | apps/web/src/lib/jackline-api.ts:793-841 | printed messages, cut anywhere, reach the handlers as the events and data they carry |
| SecretBox.DecryptOfEncrypt | packages/crypto/src/secretBox.ts:46-95 | decryption undoes encryption, tag framing included |
| SecretBox.DecryptsIff | packages/crypto/src/secretBox.ts:63-95 | a payload opens exactly under its own key version, key and associated data |
| GatewayToken.ParseOfFormat | packages/shared/src/types/gatewayCredential.ts:10-42 | a printed token parses back exactly when its secret is not empty and does not end in whitespace, dots or not |
| GatewayToken.FormatOfParse | packages/shared/src/types/gatewayCredential.ts:20-42 | whatever parses is, trimmed, what its parts print |
| GatewayToken.BearerIff | apps/cli/src/lib/gatewayAuth.ts:28-34 | a token is extracted from exactly the padded headers of scheme, whitespace and token |
| GatewayToken.BearerHeader | apps/cli/src/lib/gatewayAuth.ts:28-34 | `Bearer` and a token yields that token, `Basic` nothing |
| GatewayToken.BearerWordIff | apps/cli/src/lib/gatewayAuth.ts:32 | the scheme is recognised in every mixture of cases, and no other word is |
| GatewayToken.UuidIff | packages/shared/src/types/gatewayCredential.ts:20-42 | exactly which texts are taken for UUIDs |
| GatewayToken.CarriesToken | packages/shared/src/types/gatewayCredential.ts:20-42 | a bearer value parses to a token's parts exactly when it is that token |
| CredentialStore.ReadYieldsTheKey | apps/cli/src/lib/masterKey.ts:100-153 | a successful read yields the key, and every state the migration passes through still holds it |
| CredentialStore.ReadSucceedsIff | apps/cli/src/lib/masterKey.ts:100-153 | the exact keychain and file conditions under which a read succeeds |
| CredentialStore.ReadTwice | apps/cli/src/lib/masterKey.ts:100-153 | a successful read can be repeated in the same circumstances unless it migrated the key during silently failing lookups |
| CredentialStore.MigrationMakesTwoWrites | apps/cli/src/lib/masterKey.ts:113-133 | the exact condition for a migration, and that it writes the keychain and moves the file, never the config |
| CredentialStore.UnrecordedStorageNeverMigrates | apps/cli/src/lib/masterKey.ts:46-58 | with no storage recorded a key file is used in place, whatever the keychain does |
| CredentialStore.PutKeepsSafe | apps/cli/src/lib/secrets.ts:68-93 | putting a secret is safe at each write, succeeds exactly when the key can be read, sets its id and leaves every other row as it is |
| CredentialStore.MintKeepsSafe | apps/cli/src/lib/gatewayAuth.ts:69-95 | minting is safe at each write and leaves the config naming a stored token |
| CredentialStore.CrashedMintKeepsAToken | apps/cli/src/lib/gatewayAuth.ts:69-95 | a crash anywhere in minting leaves the old token in force before the last write and the new one after it, never none |
| CredentialStore.CommandKeepsSafe | apps/cli/src/lib/gatewayAuth.ts:69-175 | at every write boundary of every command each id the config names is present and opens under the master key to what was last put |
| CredentialStore.AddKeepsSafe | apps/cli/src/commands/add.ts:388-401 | the same for adding a server; it succeeds exactly when the key can be read, and then only that secret and that last server are new |
| CredentialStore.ReplaceKeepsSafe | apps/cli/src/commands/add.ts:376-386 | the same for replacing one; its identity, secret id and disabled tools stay, and every other server is untouched |
| CredentialStore.RenewKeepsSafe | apps/cli/src/commands/connect.ts:193-196 | the same for a new secret of an existing server; the config does not change and only that secret does |
| CredentialStore.ToggleKeepsSafe | apps/cli/src/commands/tools.ts:178-184 | the same for tool toggles; no secret changes, and only that server's disabled tools do |
| CredentialStore.RunsKeepSafe | apps/cli/src/lib/secrets.ts:68-123 | a safe store stays safe over every run of commands, outages and crashes |
| CredentialStore.InitEstablishesSafe | apps/cli/src/commands/init.ts:46-94 | a completed `init`, forced or not, whatever was there, leaves a safe store with one gateway token |
| CommandOutcomes.KeysHave32Bytes | packages/crypto/src/secretBox.ts:98-109 | a secret is put exactly when the key that is read decodes to 32 bytes, and none is handed out under any other |
| CommandOutcomes.InitRefusesIff | apps/cli/src/commands/init.ts:46-55 | `init` refuses, and writes nothing, exactly without `--force` when a config, a key file or a readable keychain entry exists |
| CommandOutcomes.InitSucceedsIff | apps/cli/src/commands/init.ts:46-94 | otherwise it succeeds exactly when the key goes into a file, or the keychain works both when storing and when minting |
| CommandOutcomes.InitAgainChangesNothing | apps/cli/src/commands/init.ts:48-55 | after a completed `init` and any run, an unforced `init` changes nothing |
| CredentialStore.FailedInitCanBeRetriedIff | apps/cli/src/commands/init.ts:72-94 | a first `init` that fails leaves nothing that blocks another one exactly when it failed to store the key; if it fails later, the store is safe but has a config and no token |
| CredentialStore.StoredKeyIsHeld | apps/cli/src/lib/masterKey.ts:64-94 | a key stored without error is where reads will look for it once the config is written, and no place holds another |
| CredentialStore.ClearedKeyIsGone | apps/cli/src/lib/masterKey.ts:165-176 | no key file is left after clearing, and no key can be read unless the keychain entry could not be deleted |
| CredentialStore.KeyIsStable | apps/cli/src/lib/masterKey.ts:46-153 | after `init`, over every run with crashes and outages, a read that succeeds yields the key `init` drew |
| CredentialStore.NamedSecretsSurvive | apps/cli/src/lib/secrets.ts:95-123 | after `init`, over every run, each secret the config names can be looked up and is what was last put |
| CredentialStore.GetYieldsLastPut | apps/cli/src/lib/secrets.ts:95-123 | a lookup yields what was last put under its id, and nothing for an id never put |
| CredentialStore.DeleteKeepsSafeIff | apps/cli/src/lib/secrets.ts:125-134 | deleting a secret is safe exactly when the config does not name it |
| CredentialStore.MovedRowNeverOpens | packages/crypto/src/secretBox.ts:63-95 | a row copied under another id, or read under another key, does not open |
| CredentialStore.LoadYieldsToken | apps/cli/src/lib/gatewayAuth.ts:125-143 | loading yields the minted token whenever the master key can be read |
| CredentialStore.VerifyIff | apps/cli/src/lib/gatewayAuth.ts:149-175 | a header is accepted exactly when it is a Bearer header carrying the current token and the key can be read |
| CredentialStore.MintingRevokes | apps/cli/src/lib/gatewayAuth.ts:69-95 | right after minting, every token with another id is refused |
| TokenRuns.MintRevokesForGood | apps/cli/src/lib/gatewayAuth.ts:69-175 | over every later run of commands, outages and crashes that does not mint under the old id again, the old token stays refused |
| TokenRuns.RunsKeepToken | apps/cli/src/lib/gatewayAuth.ts:69-123 | over every run with fresh random ids, a store that holds a current token holds one at every write |
| TokenRuns.VerifyAfterInit | apps/cli/src/lib/gatewayAuth.ts:149-175 | in every store reachable after `init`, a header is accepted exactly when it is a Bearer header carrying the current token and the key can be read |
| TokenRuns.NoTokenNoAccess | apps/cli/src/lib/gatewayAuth.ts:125-175 | without a token named in the config nothing is accepted |
| CredentialStore.EnsureKeepsTokenIff | apps/cli/src/lib/gatewayAuth.ts:100-123 | an existing token is returned unchanged exactly when the lookup can read the key |
| CredentialStore.BriefOutageRotatesToken | apps/cli/src/lib/gatewayAuth.ts:100-123 | otherwise, with the keychain back for minting, it is replaced |
| CredentialStore.BriefOutageExists | apps/cli/src/lib/masterKey.ts:109-153 | one failed lookup of a key held only in the keychain is such an outage |
| CredentialStore.EnsureTwice | apps/cli/src/lib/gatewayAuth.ts:100-123 | a second call returns the first call's token with `created = false`, given that it can read the key |
| CommandOutcomes.EnsureIff | apps/cli/src/lib/gatewayAuth.ts:98-123 | on every safe store: the stored token if there is one and it can be read; otherwise a new one, named by the config, exactly when the key can be read while minting; else an error and no change |
| CommandOutcomes.EnsureCompletesInit | apps/cli/src/lib/gatewayAuth.ts:98-123 | after an `init` that failed in minting, `ensure` creates the token exactly when the key can be read |
| CommandOutcomes.LoadIff | apps/cli/src/lib/gatewayAuth.ts:125-143 | on every safe store, loading yields the stored token exactly when there is one of the right kind and the key can be read |
| CommandOutcomes.VerifyNeedsStoredToken | apps/cli/src/lib/gatewayAuth.ts:149-175 | without a stored token of the right kind, or without the key, no header is accepted |
| Home.Home.ReadMasterKey | apps/cli/src/lib/masterKey.ts:100-153 | after `init` a read yields the key or throws, and every state on the way is safe |
| Home.Home.PutSecret | apps/cli/src/lib/secrets.ts:68-93 | after `init` a put is safe at each write and changes only the secret it names, or none when it throws |
| Home.Home.GetSecretPlaintext | apps/cli/src/lib/secrets.ts:95-123 | after `init` a lookup yields exactly what was last put, and succeeds exactly when there is such a secret and the key can be read |
| Home.Home.DeleteSecret | apps/cli/src/lib/secrets.ts:125-134 | the secret is gone, and the store stays safe exactly when the config did not name it |
| Home.Home.MintGatewayToken | apps/cli/src/lib/gatewayAuth.ts:69-95 | the secret is on disk before the config names it; on success the config names the new token and nothing else differs, on failure nothing does |
| Home.Home.EnsureGatewayToken | apps/cli/src/lib/gatewayAuth.ts:100-123 | the stored token unchanged, or a new one that the config names, or an error without change, in exactly the cases of `CommandOutcomes.EnsureIff` |
| Home.Home.LoadGatewayToken | apps/cli/src/lib/gatewayAuth.ts:125-143 | the stored token exactly when there is one and the key can be read |
| Home.Home.VerifyGatewayAuthorization | apps/cli/src/lib/gatewayAuth.ts:149-175 | accepts exactly the Bearer headers that carry the current token while the key can be read, and nothing without a token |
| Home.Home.AddServer | apps/cli/src/commands/add.ts:388-401 | safe at each write; on success only that secret and that last server are new, on failure nothing |
| Home.Home.ReplaceServer | apps/cli/src/commands/add.ts:376-386 | safe at each write; on success only that server and its secret change, on failure nothing |
| Home.Home.Reconnect | apps/cli/src/commands/connect.ts:193-196 | safe at each write; only the server's secret changes |
| Home.Home.ToggleTools | apps/cli/src/commands/tools.ts:178-184 | safe; a single write that changes one server's disabled tools and nothing else |
| Home.Home.StoreMasterKey | apps/cli/src/lib/masterKey.ts:64-94 | on success the key is where reads will look for it and no place holds another; on failure the disk is untouched |
| Home.Home.ClearStoredMasterKey | apps/cli/src/lib/masterKey.ts:165-176 | no key file remains, nor a keychain entry that can be deleted; config and secrets are untouched |
| Home.Home.Init | apps/cli/src/commands/init.ts:46-94 | refused without any change exactly on an initialised home without `--force`; the exact conditions of success; on success the store is safe under the drawn key and holds the returned token as its only secret |
| Home.Home.Run | apps/cli/src/lib/gatewayAuth.ts:69-175 | every command makes the writes of its specification and keeps the store safe |
| Home.Home.InitAndRun | apps/cli/src/commands/init.ts:46-94 | after `init` and any number of commands, a read yields the drawn key and every secret the config names is found as last put |
| ToolPermissions.MergeByToolId | packages/policy/src/getAllowedTools.ts:25-40 | one row per tool, in first-occurrence order: its first row, denied if any row denies |
| ToolPermissions.GetAllowedTools | packages/policy/src/getAllowedTools.ts:42-48 | the tools that may be used, in first-occurrence order |
| ToolPermissions.AllowedExactly | packages/policy/src/getAllowedTools.ts:12-48 | without duplicates and in the order of first rows, exactly the ids whose first row is active on an active server and whose rows all allow |
| ToolPermissions.DenyingRowRemovesItsTool | packages/policy/src/getAllowedTools.ts:34-36 | a denying row put anywhere removes its tool and changes nothing for any other |
| ToolPermissions.OrderDoesNotMatterIff | packages/policy/src/getAllowedTools.ts:24-40 | a tool's fate is the same for every permutation of the rows exactly when some row denies it or its rows are all on or all off |
| ToolPermissions.ResultIgnoresOrderIff | packages/policy/src/getAllowedTools.ts:42-48 | no permutation adds or removes any tool exactly when that holds of every tool |
| ToolPermissions.FirstRowDecides | packages/policy/src/getAllowedTools.ts:24-40 | a tool that no row denies follows whichever of its rows is put first |
| ToolPolicy.Server.DisableTools | apps/cli/src/lib/toolPolicy.ts:16-25 | the loop over an insertion-ordered set gives the sorted union |
| ToolPolicy.Server.ApplyDisabledTools | apps/cli/src/lib/toolPolicy.ts:36-45 | afterwards exactly the given tools are off, the record keeps their list, and an empty list removes the field |
| ToolPolicy.Server.Switch | apps/cli/src/commands/tools.ts:178-184 | afterwards the named tools are as asked and all others as before |
| ToolPolicy.ToggleSetsNamedTools | apps/cli/src/lib/toolPolicy.ts:3-45 | one toggle sets exactly the named tools |
| ToolPolicy.LastToggleDecides | apps/cli/src/lib/toolPolicy.ts:3-45 | over any run of toggles the last one naming a tool decides |
| ToolPolicy.SameDecisionsSameRecord | apps/cli/src/lib/toolPolicy.ts:16-45 | two runs leave the same record exactly when they decide the same about every tool |
| ToolPolicy.EqualFingerprintsIff | apps/cli/src/lib/toolPolicy.ts:48-57 | fingerprints agree exactly for the same servers in the same places with the same disabled tools up to order, whatever characters names contain |
| ToolPolicy.EqualFingerprintsSamePolicy | apps/cli/src/lib/toolPolicy.ts:48-57 | equal fingerprints imply the same enabled tools for every server at every position |
| ToolPolicy.FingerprintWatchesThePolicy | apps/cli/src/lib/toolPolicy.ts:48-57 | on lists the commands leave behind, the fingerprint of the same servers changes exactly when some tool changes |
| JsonText.QuoteIsPrefixCode | apps/cli/src/lib/toolPolicy.ts:49-56 | no JSON string is a proper beginning of another followed by anything |
| JsonText.ListTellsApart | apps/cli/src/lib/toolPolicy.ts:49-56 | the same for JSON arrays of such values |
| HtmlEscape.PassesAreOnePass | apps/cli/src/lib/oauthConnect.ts:25-32 | the five passes equal one pass character by character |
| HtmlEscape.OutputIsSafe | apps/cli/src/lib/oauthConnect.ts:25-32 | none of `< > " '` survives |
| HtmlEscape.UnescapeOfEscape | apps/cli/src/lib/oauthConnect.ts:25-32 | reading the entities back recovers every text |
| McpName.SanitizeYieldsSegments | packages/shared/src/mcp/toolName.ts:2-4 | the result is a non-empty segment of allowed characters without underscores at its ends, and exactly these are left unchanged |
| McpName.SanitizeKeepsWords | packages/shared/src/mcp/toolName.ts:2-4 | the usable words of a name come out joined by one underscore for each run of other characters, without what stands around them |
| McpName.UnusableNameIsX | packages/shared/src/mcp/toolName.ts:2-4 | a name without usable characters becomes `x` |
| McpName.NameCharIff | packages/shared/src/mcp/toolName.ts:2-4 | the alphabet of names, letter by letter |
| McpName.SplitRecoversIff | packages/shared/src/mcp/toolName.ts:2-12 | cutting a name at its first `__` recovers both segments exactly when the server's has none |

## Left out

- Floating-point limits: windows, counts and clock times are integers of any size, and `Number` on an override is a parameter; a window of more digits than a double can hold is not treated as infinite.
- SHA-256: the digest of identity keys is a parameter. That different texts have different digests is not claimed.
- UTF-16: a character is a Unicode code point. The order of strings in `sort` differs for characters outside the basic plane, lengths differ likewise, and lone surrogates do not occur.
- Redis: one key with the window all clients use for it; eviction under memory pressure, failover and manual deletion are not steps. Time does not run past the deadline of a live key. An INCR and the reply to it are one step, so a reply lost on the way is a crash of the client after the command.
- Limiter.QuotaLimiter.Consume: a store that throws has not counted; a Redis call that throws after its INCR is a crash of the client in `RedisStore`.
- Limiter.RateIsBounded: like `RedisAnswers.RedisRateIsBounded`, speaks of calls answered by the store; degraded calls, allowed without being counted, are outside it.
- MemoryStore.MemoryQuotaStore.Increment: the map holds window entries as values, so the update in place of an entry object is a replacement of the map's value.
- Clocks are assumed not to go back, as a hypothesis of each statement that needs it.
- TemplateTree.Evaluates: quoted literals with an equality operator outside brackets are excluded, because the code misreads them (`TemplateTree.BalancedQuotedTextIff`), and so are those with unbalanced brackets, which shift the bracket depth of what follows them; a path that is only the word `true`, `false`, `null` or `undefined` is a literal.
- GatewayToken.IsUuid: `z.uuid()` is taken to be the text form of RFC 9562.
- Property access, truthiness and the two equalities of JavaScript are parameters of the evaluator; getters, prototypes and throwing accessors are not modelled.
- EventStream.ReceiveFeed: entries, thread lists and errors without a message are events the reader knows; the server code read for this model sends snapshots, errors and pings only.
- The decoding of bytes to text in the transcript reader: chunks are text, cut anywhere. `JSON.parse` and `JSON.stringify` are parameters, that one undoes the other is a hypothesis of the end-to-end statement, and handlers are assumed not to throw.
- Cryptography: AES-256-GCM (NIST SP 800-38D) is an abstract cipher with a correctness and a binding property stated as hypotheses; base64 of payloads and the text encoding are the identity; constant-time comparison is equality; fresh ids, secrets and nonces are inputs, and the master key `init` draws is any valid one.
- Concurrent CLI processes: the secrets file is read, changed and rewritten without a lock, and the model has one process.
- Files that cannot be parsed, and writes or renames that fail. A crash falls between two writes, and each write is atomic. The `.bak` and `.migrated` copies are not tracked.
- CredentialStore.InitEstablishesSafe: an `init` that crashes part-way is not claimed to leave a safe store, nor is a failing `init --force`, which empties the secrets before it stores the new key; a first `init` that fails is covered by `CredentialStore.FailedInitCanBeRetriedIff`.
- CredentialStore.CommandKeepsSafe: `add`, `connect` and the tool commands are modelled by their writes; option handling, duplicate checks and the OAuth exchange are not.
- `parseToolNames`, other single-branch helpers, Zod schemas, Drizzle tables, React and DOM code, deployment and the KMS-backed secret boxes: no runs to reason about, or easy members only.
- Trust grants, gateway request handling and upstream OAuth refresh are not part of this model.
