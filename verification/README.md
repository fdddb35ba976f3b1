# AuthGuard verification

A Dafny model of AuthGuard's hardest logic, with proofs. AuthGuard is an identity and access platform:
AuthN logs people in and issues identity tokens, AuthZ decides requests at the gateway, and small adapters
inside workloads turn the decision into a SQL condition. `dafny verify dfyconfig.toml` checks everything.

| component | files |
|---|---|
| SQL scope compiler of the Go and Python adapters | `Strings`, `Urn`, `Sql`, `ScopeSpec`, `ScopeText`, `GoScope`, `PythonScope`, `ScopeRefusals` |
| In-memory cache: scope tokens (LRU and time-to-live) and one-time values | `MemoryCache`, `CacheLifetimes` |
| Account linking over the identity tables, and every interleaving of it | `IdentityStore`, `AccountLinking`, `LinkingRuns`, `LinkingOutcomes` |
| Environment overrides of the configuration tree | `ConfigTree`, `ConfigPath`, `OverrideMeaning` |
| HTTP route matching and resource templates | `HttpRoutes`, `RouteMeaning` |
| One-time challenges (OAuth state) | `Challenges`, `ChallengeMeaning` |
| Keyset pagination and the SCIM listing | `KeysetWalk`, `ListingMeaning` |
| Federated principal search | `Federation`, `MergeMeaning` |
| Shared: orders, sets and sequences | `Collections` |
| The assumed laws can be met | `Witnesses` |
| Access-context delivery, direct or by token, and the workload filter | `Base64Url`, `CompactTokens`, `AccessContext`, `Delivery` |
| Identity tokens: project, issue, authenticate | `Tokens`, `TokenReading` |

## How to read it

Each module defines what the code computes as functions or a step relation, gives the code's loops and
in-place updates as methods proved against those, and proves the promised properties as lemmas about them.
Beside each, a module of meanings (`ScopeRefusals`, `CacheLifetimes`, `LinkingOutcomes`, `OverrideMeaning`,
`RouteMeaning`, `ChallengeMeaning`, `ListingMeaning`, `MergeMeaning`, `TokenReading`) says exactly when each outcome
comes about, in terms of the inputs, the tables and the clock.
The main results are:

- `ScopeText.ScopeMeansPolicy`: the WHERE *text* with its arguments, read back by a SQL parser, selects a row
  exactly when the policy permits the row's resource. `ScopeSpec.FaithfulIff` says for which patterns this holds:
  it is an if-and-only-if. `ScopeRefusals.RefusedIff`: exactly which lists are refused.
  `PythonScope.AdaptersAgree`: both adapters produce the same text and arguments.
- `MemoryCache.Retained`, `EvictionIsLeastRecent`, `LoadAnswersLastStore`, `SmallRunsAreExact`: over every run;
  `CacheLifetimes.AnswersIffAlive`, `TakenIffAlive`: exact expiry in seconds.
- `LinkingRuns.BindingsDoNotMove`, `NoSilentMerge`, `RacingLoginsAgree`, `BoundProvidersAreReachable`: over every
  interleaving of calls; `LinkingOutcomes.LoginIff`, `LinkIff`, `RegisterIff`: exactly when each answers, over the tables;
  `AccountLinking.RegistrationCompensates`: an exact condition.
- `ConfigTree.GetSet`, `SetSet`, `CommuteIff` (an if-and-only-if on any tree), `OrderIrrelevant`;
  `ConfigPath.EnvironmentOrderIrrelevant`; `OverrideMeaning.EntryShows`, `NameIff`.
- `HttpRoutes.ResolveRoute`, `RouteOrderIrrelevant`, `CapturesInvertIff`, `ClaimsShadowed`; `RouteMeaning.ResolveIff`:
  which requests a route answers, and with what.
- `Challenges.AtMostOneIssue`, `IssuedWereBegun`: a conservation law over every interleaving.
- `KeysetWalk.WalkScim`, `WalkVisits`, `WalkIncreases`: walks over a store that others change.
- `Federation.ConfluentIff`: the merged page never depends on completion order if and only if provider ids are distinct.
- `Delivery.DeliveryEquivalent`, `DeliveryEquivalentOverRun`: both deliveries give the workload the same access.
- `Tokens.PipelineRoundTrip`: what is issued is what is read back, with the exact size condition;
  `TokenReading.AuthenticateIff`: exactly which tokens authenticate, and as whom.

Foreign libraries (JSON, YAML text, HMAC, RSA, SHA-256, the database's string order) are function-valued
parameters with their laws as predicates, and `Witnesses` exhibits values that have those laws; base64url is
written out and its laws are proved (`Base64Url`). Clocks, random values and the state of the database at each
read are parameters too, so the results hold for all of them.

## Where the code falls short of a natural reading

The model follows the code. These are stated as lemmas with concrete inputs or exact conditions.

- A pattern that stops exactly where a mapping's remainder column starts compiles to no clause and selects every
  row (`ScopeSpec.StoppingAtRemainderSelectsAll`); a mapping is right about every pattern and every row if and only
  if no remainder column comes early (`RemainderMustBeLast`); a prefix with `%` or `_` (or a backslash, where the dialect escapes) widens the LIKE
  (`UnescapedUnderscore`), though without escapes it never hides a permitted row (`PathNeverHides`). The store's own
  search escapes correctly, for every query (`KeysetWalk.SearchIsPrefix`).
- A failed link can leave the binding behind, exactly when the Principal turns out disabled
  (`AccountLinking.FailedLinkEffect`, with the input in `FailedLinkLeavesBinding`); a compensated registration restores
  the tables exactly when the identity was not bound before (`RegistrationCompensates`, `CompensationDeletesBound`); a
  token that cannot be signed leaves the new binding behind (`UnissuedKeepsBinding`). Among other calls, undoing a link
  deletes the Principal exactly when nothing else binds it then (`LinkingRuns.UnbindDeletesIff`, `BothUndone`).
- Overrides whose paths ask for containers of different kinds, or whose outer value does not show the inner one, do not
  commute on any tree (`ConfigTree.CommuteIff`).
- A provider id configured twice makes the merged page depend on completion order unless a filter names it
  (`Federation.ConfluentIff`, with the input in `DuplicateProvidersRace`; `SelectedProviders`).
- A response puts and removes one header at once exactly when the identity header is configured to be the delivery
  header in use (`Delivery.DisjointIff`), and only then does the order in which a gateway applies the lists matter
  (`OrderIrrelevantIff`).
- A context lifetime under one second is accepted by the configuration but never by a reader
  (`AccessContext.CurrentIff`). Projected claims may fill the reader's cap, and then the issued token is refused
  (`Tokens.FullProjectionRefused`).
- A wildcard host pattern is compared case-sensitively, an exact one is not (`HttpRoutes.WildcardHost`).

## Model

| member | source | states |
|---|---|---|
| `Urn.ParsePrint` | src/adapters/golang/util/util.go:245-268 | parsing accepts exactly the printed forms of well-formed patterns, so parse and print undo each other in both directions |
| `Urn.MatchPath` | src/common/src/utils/policy_urn.rs:242-265 | the matcher's loop decides the recursive path relation |
| `Urn.PathMatchesCovers` | src/common/src/utils/policy_urn.rs:242-265 | `*` takes one segment and a final `**` any extension, position by position, both directions |
| `Urn.PrintSpelled` | src/common/src/utils/policy_urn.rs:102-111 | the printed form written out: `urn:iam:` and five parts between colons |
| `Urn.MatchesIff` | src/common/src/utils/policy_urn.rs:88-94 | a pattern covers a URN exactly when each of four parts is equal or `*`, and the path is covered position by position |
| `Sql.ReadsBack` | src/adapters/golang/util/util.go:426-449 | any well-formed condition tree, spelled as the code spells it, is read back to the same tree under NOT over AND over OR |
| `Sql.EvalFrame` | src/adapters/golang/util/util.go:307-326 | a tree depends only on the arguments at its own placeholders |
| `Sql.UnderIffPlain` | src/adapters/golang/util/util.go:404-424 | `col = p OR col LIKE p/%` means "is p or lies under p/" on every text if and only if p has no LIKE metacharacter |
| `Sql.UnderImpliesLike` | src/adapters/golang/util/util.go:416-417 | an unescaped prefix still matches everything under it |
| `ScopeSpec.PathMeaning` | src/adapters/golang/util/util.go:368-424 | a compiled path selects exactly the rows whose path the pattern covers; "no row" means none |
| `ScopeSpec.PatternMeaning` | src/adapters/golang/util/util.go:340-354 | the same for whole URN patterns |
| `ScopeSpec.FaithfulIff` | src/adapters/golang/util/util.go:404-424 | condition and policy matcher agree on every row if and only if the pattern does not stop at the remainder column and its LIKE prefix is plain |
| `ScopeSpec.UnfaithfulRow` | src/adapters/golang/util/util.go:404-424 | otherwise some row is selected that the pattern does not cover |
| `ScopeSpec.RemainderMustBeLast` | src/adapters/golang/util/util.go:340-402 | a mapping's outcomes are right about every well-formed pattern and every row if and only if a remainder column can only come last |
| `ScopeSpec.EarlyRemainderWrong` | src/adapters/golang/util/util.go:368-402 | otherwise a pattern and a row about which the outcome is wrong: a longer path selected, or a covered row said not to exist |
| `ScopeSpec.StoppingAtRemainderSelectsAll` | src/adapters/golang/util/util.go:405-407 | no clause at all where the pattern ends at the remainder column |
| `ScopeSpec.UnescapedUnderscore` | src/adapters/golang/util/util.go:416-417 | a concrete key selected through an unescaped `_` |
| `ScopeSpec.PathNeverHides` | src/adapters/golang/util/util.go:368-424 | without escapes no covered row is ever lost |
| `ScopeText.SentinelIsFaithful` | src/adapters/golang/util/util.go:426-449 | the text is `1=1` exactly when no clause was emitted |
| `ScopeText.CompiledScope` | src/adapters/golang/util/util.go:288-327 | text and arguments spell the tree built from the clauses, and the tree decides the policy |
| `ScopeText.TextReadsBack` | src/adapters/golang/util/util.go:307-326 | the concatenated text parses to the intended tree; placeholders count the arguments and are numbered left to right |
| `ScopeText.ScopeMeansPolicy` | src/adapters/golang/util/util.go:288-449 | the compiled text with its arguments selects a row exactly when some allow pattern and no deny pattern covers its URN |
| `ScopeSpec.RowIs` | src/adapters/golang/util/util.go:356-402 | the URN of a row: constants, literals and column texts at their places |
| `ScopeRefusals.PathOutcomeIs` | src/adapters/golang/util/util.go:368-424 | refused, reaching no row or unrestricted, read off the mapping's and the pattern's segments |
| `ScopeRefusals.PatternOutcomeIs` | src/adapters/golang/util/util.go:340-354 | the same for whole patterns |
| `ScopeRefusals.RawOutcomeIs` | src/adapters/golang/util/util.go:245-354 | the same for texts: refused exactly when no well-formed pattern prints as the text, or a path reaches a remainder column with a `*` left |
| `ScopeRefusals.RefusedIff` | src/adapters/golang/util/util.go:288-327 | compilation fails if and only if some allow text is refused, or, with some allow text that can reach a row, some deny text before the first deny-all |
| `ScopeRefusals.ScopeDecides` | src/adapters/golang/util/util.go:288-327 | unless refused there is a scope, and on faithful patterns it selects exactly the rows some printed allow pattern and no deny pattern covers |
| `GoScope.ParseURNPattern` | src/adapters/golang/util/util.go:245-268 | the parsing code computes the specified parse |
| `GoScope.Builder.Append` | src/adapters/golang/util/util.go:356-366 | appending a clause extends clause texts and arguments together |
| `GoScope.CompileSegment` | src/adapters/golang/util/util.go:356-366 | one fixed segment: refuse, nothing or an equality |
| `GoScope.CompileRemainder` | src/adapters/golang/util/util.go:404-424 | the remainder's clauses |
| `GoScope.CompilePath` | src/adapters/golang/util/util.go:368-402 | the index loop computes the recursive path specification |
| `GoScope.CompilePattern` | src/adapters/golang/util/util.go:340-354 | the five parts in order |
| `GoScope.OrScopes` | src/adapters/golang/util/util.go:433-449 | the disjunction of scopes with its sentinel cases |
| `GoScope.CompileScope` | src/adapters/golang/util/util.go:288-327 | the whole compiler equals the recursive specification, error cases included |
| `PythonScope.ParseUrnPattern` | src/adapters/python/authguard_adapter/util.py:268-283 | the same parse |
| `PythonScope.CompileRemainder` | src/adapters/python/authguard_adapter/util.py:427-440 | the remainder's clauses |
| `PythonScope.CompilePath` | src/adapters/python/authguard_adapter/util.py:396-424 | the list loop computes the same path specification |
| `PythonScope.CompileSegment` | src/adapters/python/authguard_adapter/util.py:386-393 | one fixed segment |
| `PythonScope.CompilePattern` | src/adapters/python/authguard_adapter/util.py:370-383 | the five parts |
| `PythonScope.OrIsOrScope` | src/adapters/python/authguard_adapter/util.py:449-454 | the comprehension-based disjunction equals the Go one |
| `PythonScope.CompileScope` | src/adapters/python/authguard_adapter/util.py:315-330 | equals the same specification |
| `PythonScope.AdaptersAgree` | src/adapters/python/authguard_adapter/util.py:315-330 | Go and Python return the same text and arguments, or both refuse |
| `MemoryCache.MemoryAuthorizationCache.StoreScope` | src/common/src/cache/memory.rs:90-120 | one step: drop expired, evict a least recently used entry when full, insert |
| `MemoryCache.MemoryAuthorizationCache.LoadScope` | src/common/src/cache/memory.rs:122-132 | one step: drop expired, renew the access number, answer the context |
| `MemoryCache.MemoryAuthorizationCache.PutIfAbsent` | src/common/src/cache/memory.rs:56-68 | stores only where nothing unexpired stands |
| `MemoryCache.MemoryAuthorizationCache.Take` | src/common/src/cache/memory.rs:70-75 | answers and removes in one step |
| `MemoryCache.LeastRecentlyUsed` | src/common/src/cache/memory.rs:99-107 | the scan finds an entry with the smallest access number |
| `MemoryCache.AccessNumbers` | src/common/src/cache/memory.rs:90-132 | in every run an entry's number is the time of its last store or successful load |
| `MemoryCache.EvictionIsLeastRecent` | src/common/src/cache/memory.rs:98-107 | an unexpired entry is lost only to a store into a full table, and every other live entry was used more recently |
| `MemoryCache.Retained` | src/common/src/cache/memory.rs:90-132 | a touched token is still there, with its last context, while unexpired and fewer than `capacity` other tokens were touched since |
| `MemoryCache.StoredAnswers` | src/common/src/cache/memory.rs:90-132 | in every run a stored token answers its context until expiry while fewer than `capacity` other tokens are touched and nobody stores it again |
| `MemoryCache.CacheWithinIdeal` | src/common/src/cache/memory.rs:90-132 | the cache never holds anything the unbounded timed map does not |
| `MemoryCache.LoadAnswersLastStore` | src/common/src/cache/memory.rs:122-132 | a load that answers gives the last stored, unexpired context |
| `MemoryCache.WithinCapacity` | src/common/src/cache/memory.rs:98-107 | the table never outgrows its capacity |
| `MemoryCache.SmallRunsAreExact` | src/common/src/cache/memory.rs:90-132 | with no more tokens than capacity and a monotone clock the cache is the timed map |
| `CacheLifetimes.LivesIff` | src/common/src/cache/memory.rs:48-51 | alive: before the written second plus the whole seconds of the shorter lifetime, at least one, and before the last second of the clock |
| `CacheLifetimes.AnswersWithinLifetime` | src/common/src/cache/memory.rs:90-132 | in every run an answer was the last one stored under the token and is within its lifetime |
| `CacheLifetimes.AnswersIffAlive` | src/common/src/cache/memory.rs:90-132 | exact expiry: with fewer than `capacity` other tokens since, a token answers if and only if its lifetime has not run out |
| `CacheLifetimes.TakenWithinLifetime` | src/common/src/cache/memory.rs:56-75 | in every run a taken one-time value was put, not taken since, and within its lifetime |
| `CacheLifetimes.TakenIffAlive` | src/common/src/cache/memory.rs:56-75 | an accepted value nobody asked for since is taken if and only if its lifetime has not run out |
| `CacheLifetimes.AcceptedIff` | src/common/src/cache/memory.rs:56-68 | a put is accepted exactly when a take at that moment would find nothing |
| `CacheLifetimes.OthersKept` | src/common/src/cache/memory.rs:56-75 | of other keys exactly the unexpired values are kept |
| `IdentityStore.CreateKeeps` | src/common/src/storage/principal_postgres.rs:65-100 | create-and-bind keeps foreign keys and every surviving binding's Principal |
| `IdentityStore.BindKeeps` | src/common/src/storage/principal_postgres.rs:102-133 | so does binding |
| `IdentityStore.UpsertKeeps` | src/common/src/storage/principal_postgres.rs:184-250 | so do both upserts |
| `IdentityStore.DeleteKeeps` | src/common/src/storage/principal_postgres.rs:347-358 | so does deleting, with its cascade |
| `IdentityStore.RollbackKeeps` | src/common/src/storage/principal_postgres.rs:153-179 | so does rolling a binding back |
| `IdentityStore.PrincipalStore.CreatePrincipalAndBind` | src/common/src/storage/principal_postgres.rs:65-100 | the statements commit both rows or none |
| `IdentityStore.PrincipalStore.BindIdentity` | src/common/src/storage/principal_postgres.rs:102-133 | binds a free identity to an existing Principal, else changes nothing |
| `IdentityStore.PrincipalStore.RollbackIdentityBinding` | src/common/src/storage/principal_postgres.rs:153-179 | removes the binding, and the Principal when nothing else binds it |
| `LinkingOutcomes.UpsertFinds` | src/common/src/storage/principal_postgres.rs:206-250 | when an upsert with identity commits, and what every identity is found as afterwards |
| `LinkingOutcomes.DeleteFinds` | src/common/src/storage/principal_postgres.rs:347-358 | a deletion is refused exactly while a role refers to the Principal; otherwise none of its identities is found and all others are as before |
| `LinkingOutcomes.RollbackFinds` | src/common/src/storage/principal_postgres.rs:153-179 | a rollback loses only that identity, and the Principal when no other is bound to it |
| `LinkingOutcomes.StatusDecidesLogin` | src/common/src/storage/principal_postgres.rs:331-345 | disabling a Principal refuses every identity bound to it, enabling lets it in, and nothing else changes |
| `AccountLinking.ResolveLogin` | src/authn/src/principal/jit.rs:72-116 | login in both strategies, with its errors |
| `AccountLinking.LinkIdentity` | src/authn/src/principal/jit.rs:124-165 | the `permitted` loop decides the link policy; the binding is committed before the status is looked at |
| `LinkingOutcomes.LoginIff` | src/authn/src/principal/jit.rs:72-116 | a login answers `p` if and only if the identity is afterwards bound to the active row `p`, and was bound before or the strategy or an authoritative provider allowed it |
| `LinkingOutcomes.LoginTables` | src/authn/src/principal/jit.rs:72-116 | the tables after a login: one new row with its binding, or no change |
| `LinkingOutcomes.LoginErrors` | src/authn/src/principal/jit.rs:72-116 | the exact condition of each error |
| `LinkingOutcomes.LinkIff` | src/authn/src/principal/jit.rs:124-165 | a link answers `p` if and only if another identity of `p` permits the provider, the identity is free and `p` is active |
| `LinkingOutcomes.LinkTables` | src/authn/src/principal/jit.rs:124-165 | the tables after a link |
| `LinkingOutcomes.LinkErrors` | src/authn/src/principal/jit.rs:124-165 | the exact condition of each error |
| `AccountLinking.FailedLinkEffect` | src/authn/src/principal/jit.rs:138-165 | a failed link changes the tables if and only if it bound the identity and found the Principal disabled |
| `AccountLinking.FailedLinkLeavesBinding` | src/authn/src/principal/jit.rs:138-165 | the failing input: a permitted link to a disabled Principal |
| `AccountLinking.Register` | src/authn/src/handler/standalone.rs:190-259 | request checks, credential lookup, link or login, issue, write the credential, compensate |
| `LinkingOutcomes.RegisterIff` | src/authn/src/handler/standalone.rs:190-259 | registered as `p` if and only if the request is admissible, the identity settles on `p`, and issuing and writing succeed; the tables after it |
| `LinkingOutcomes.EarlyRefusals` | src/authn/src/handler/standalone.rs:195-230 | the exact condition of each refused request, in order; nothing changes |
| `LinkingOutcomes.LateRefusals` | src/authn/src/handler/standalone.rs:227-257 | the exact condition of each later failure, and the tables it leaves |
| `AccountLinking.RegisteredOnce` | src/authn/src/handler/standalone.rs:201-209 | a login gains a credential exactly on success, and had none before |
| `AccountLinking.UnissuedKeepsBinding` | src/authn/src/handler/standalone.rs:227-234 | when the token cannot be signed the tables are unchanged if and only if the identity was bound before |
| `AccountLinking.RegistrationCompensates` | src/authn/src/handler/standalone.rs:227-257 | after a failed credential write and a successful rollback the tables are as before if and only if the identity was unbound |
| `AccountLinking.CompensationDeletesBound` | src/common/src/storage/principal_postgres.rs:153-179 | the failing input: an identity already bound loses its binding and its Principal |
| `AccountLinking.CreateThenRollback` | src/common/src/storage/principal_postgres.rs:153-179 | rollback undoes create-and-bind exactly |
| `AccountLinking.LinkThenRollback` | src/authn/src/principal/jit.rs:138-163 | rollback undoes a link and never deletes the linked Principal |
| `LinkingRuns.BindingsDoNotMove` | src/common/src/storage/principal_postgres.rs:65-133 | in every interleaving a bound identity keeps its Principal while bound |
| `LinkingRuns.ConflictingUpsertChangesNothing` | src/common/src/storage/principal_postgres.rs:206-250 | an upsert for an identity bound elsewhere leaves both tables unchanged |
| `LinkingRuns.AnswerIsBinding` | src/authn/src/principal/jit.rs:72-116 | every answered login or link names the Principal bound at that moment |
| `LinkingOutcomes.LoginAlone` | src/authn/src/principal/jit.rs:72-116 | a login process run without interruption is the login call |
| `LinkingOutcomes.LinkAlone` | src/authn/src/principal/jit.rs:124-165 | and a link process the link call |
| `LinkingRuns.RacingLoginsAgree` | src/authn/src/principal/jit.rs:72-116 | racing first logins of one identity answer one Principal |
| `LinkingRuns.NoSilentMerge` | src/authn/src/principal/jit.rs:86-163 | two identities share a Principal only if a link or an AuthZ upsert joined them |
| `LinkingRuns.BoundProvidersAreReachable` | src/authn/src/principal/jit.rs:86-163 | in the explicit strategy every bound identity's provider is reachable from an authoritative one through `allow_link` |
| `LinkingRuns.UnbindDeletesIff` | src/common/src/storage/principal_postgres.rs:153-179 | in any state, undoing a binding deletes the Principal exactly when nothing else binds it and no role refers to it |
| `LinkingRuns.LinkedSurvives` | src/authn/src/handler/standalone.rs:236-257 | a linked Principal survives every compensation while another binding of it stands |
| `LinkingRuns.BothUndone` | src/authn/src/handler/standalone.rs:236-257 | the interleaving that loses it |
| `ConfigTree.GetSet` | src/common/src/config/config.rs:1880-1921 | looking where one has set gives the value |
| `ConfigTree.SetSet` | src/common/src/config/config.rs:1880-1921 | the second of two settings of a path decides the whole tree |
| `ConfigTree.DivergentUndisturbed` | src/common/src/config/config.rs:1880-1921 | shape-compatible divergent paths are undisturbed |
| `ConfigTree.ClashingErased` | src/common/src/config/config.rs:1888-1902 | clashing shapes erase the other path, so it is undisturbed exactly when it held nothing |
| `ConfigTree.SetRespects` | src/common/src/config/config.rs:1880-1925 | setting preserves indistinguishability under relaxed lookup |
| `ConfigTree.Commute` | src/common/src/config/config.rs:1880-1925 | two divergent overrides commute as seen by relaxed lookup |
| `ConfigTree.CommuteIff` | src/common/src/config/config.rs:1880-1925 | on any tree, the order of two overrides does not show if and only if they are compatible |
| `ConfigTree.CompatibleMeans` | src/common/src/config/config.rs:1880-1925 | compatible: divergent paths, or one inside the other where the outer value already shows the inner override |
| `ConfigTree.OrderIrrelevant` | src/common/src/config/config.rs:1829-1842 | so any permutation of pairwise compatible overrides gives the same configuration |
| `ConfigPath.ParseEnvironmentPath` | src/common/src/config/config.rs:1844-1878 | the parsing loops compute the specified parse |
| `ConfigPath.ParsePiece` | src/common/src/config/config.rs:1847-1873 | one piece: `INDEX_n`, or a key with bracketed indices |
| `ConfigPath.ParsePrintWords` | src/common/src/config/config.rs:1844-1878 | paths written with `INDEX_n` are read back |
| `ConfigPath.ParsePrintBrackets` | src/common/src/config/config.rs:1844-1878 | paths written with `[n]` are read back |
| `ConfigPath.SetYamlPath` | src/common/src/config/config.rs:1880-1921 | the recursive update with its padding and key-search loops computes the specified tree |
| `ConfigPath.ApplyEnvironmentEntries` | src/common/src/config/config.rs:1829-1842 | the loop applies exactly the prefixed entries in order, or fails on a bad name |
| `ConfigPath.EnvironmentOrderIrrelevant` | src/common/src/config/config.rs:1829-1842 | the order in which the process lists its environment does not show |
| `OverrideMeaning.NameIff` | src/common/src/config/config.rs:1844-1878 | a name is accepted for a path if and only if its pieces spell it: `INDEX_n`, a key, numbers in brackets |
| `OverrideMeaning.BracketedIff` | src/common/src/config/config.rs:1859-1873 | the bracket loop accepts exactly rows of bracketed numbers |
| `OverrideMeaning.EntryIff` | src/common/src/config/config.rs:1833-1840 | a prefixed entry overrides its path with what YAML reads, or with its own text |
| `OverrideMeaning.EntryShows` | src/common/src/config/config.rs:1829-1842 | in the final configuration an entry shows its value, whatever came before, if later entries part from its path |
| `OverrideMeaning.KeysAfterSet` | src/common/src/config/config.rs:1904-1917 | keys keep their spelling; a new one is the name in ASCII lower case, added only when none has the same letters and digits |
| `OverrideMeaning.NormalizedMeans` | src/common/src/config/config.rs:1923-1925 | names are compared by ASCII letters in lower case and digits |
| `HttpRoutes.SlashSeparates` | src/common/src/utils/http_matcher.rs:190-192 | segments of `a/b` are the segments of `a` and of `b`: splitting sees nothing else of slashes |
| `HttpRoutes.SlashesIrrelevant` | src/common/src/utils/http_matcher.rs:190-192 | doubled, leading and trailing slashes are not seen |
| `HttpRoutes.Compile` | src/common/src/utils/http_matcher.rs:55-82 | succeeds exactly on acceptable paths; every matcher shows its segment and `**` is last |
| `HttpRoutes.ShownInjective` | src/common/src/utils/http_matcher.rs:62-80 | a compiled matcher is determined by its segment |
| `HttpRoutes.MatchPath` | src/common/src/utils/http_matcher.rs:158-188 | the loop decides the match and fills exactly the captures |
| `HttpRoutes.FitsIff` | src/common/src/utils/http_matcher.rs:158-188 | matching position by position: `*` one segment, `**` any number |
| `HttpRoutes.CapturesSegment` | src/common/src/utils/http_matcher.rs:172-177 | a variable gets the segment at its last place |
| `HttpRoutes.CapturesOnly` | src/common/src/utils/http_matcher.rs:172-177 | nothing else is bound |
| `HttpRoutes.CapturesInvertIff` | src/common/src/utils/http_matcher.rs:158-188 | without `*` and `**`, substituting the captures gives the request back if and only if repeated variables captured one value |
| `HttpRoutes.TemplateShows` | src/common/src/utils/http_matcher.rs:194-215 | cutting a template at its braces loses nothing |
| `HttpRoutes.ExpandTemplate` | src/common/src/utils/http_matcher.rs:194-215 | the loop is one simultaneous substitution into the pre-cut template; inserted values are never rescanned |
| `HttpRoutes.InstantiateOkIff` | src/common/src/utils/http_matcher.rs:203-211 | expansion of a closed template succeeds exactly when every name is known |
| `HttpRoutes.InstantiateAgrees` | src/common/src/utils/http_matcher.rs:203-211 | only the template's own names are looked up |
| `HttpRoutes.WildcardHost` | src/common/src/utils/http_matcher.rs:217-223 | what a `*.suffix` host pattern matches |
| `HttpRoutes.ResolveOne` | src/common/src/utils/http_matcher.rs:85-131 | one route: silent, an answer, or an error |
| `HttpRoutes.ResolveRoute` | src/common/src/utils/http_matcher.rs:139-156 | Ok exactly when one route answers and all others are silent |
| `HttpRoutes.AnswerUnique` | src/common/src/utils/http_matcher.rs:139-156 | there is at most one such answer |
| `HttpRoutes.RouteOrderIrrelevant` | src/common/src/utils/http_matcher.rs:139-156 | every permutation of the routes gives the same answer |
| `HttpRoutes.SpellingIrrelevant` | src/common/src/utils/http_matcher.rs:139-192 | paths with the same segments resolve alike |
| `HttpRoutes.ClaimsShadowed` | src/common/src/utils/http_matcher.rs:103-123 | claims that agree on the template names not bound by path, method or host give one resolution |
| `RouteMeaning.ResolveIff` | src/common/src/utils/http_matcher.rs:85-131 | a route answers exactly the methods, hosts and paths it takes, with its own id and action and the URNs its templates read as; otherwise it is silent |
| `RouteMeaning.KnownIff` | src/common/src/utils/http_matcher.rs:104-110 | a name stands for the path's last segment under it, else the host or the lower-cased method, else the claim |
| `RouteMeaning.TakesHostIff` | src/common/src/utils/http_matcher.rs:217-223 | which host names a host pattern takes, the port aside |
| `RouteMeaning.SameIgnoringCaseIff` | src/common/src/utils/http_matcher.rs:92-96 | equal up to the case of ASCII letters, character by character |
| `RouteMeaning.CutIff` | src/common/src/utils/http_matcher.rs:194-215 | a template has exactly one cut into texts and names, and it is refused exactly when it has none |
| `RouteMeaning.RendersIff` | src/common/src/utils/http_matcher.rs:108-123 | a template reads as a URN exactly when the text with every name replaced does |
| `Challenges.KeysDistinct` | src/authn/src/authentication/challenge.rs:65-68 | purposes free of the separator share a key exactly when purpose and id are equal |
| `Challenges.PurposesSeparate` | src/authn/src/handler/oauth2.rs:26 | the service's own purposes are free of it and differ from OAuth's |
| `Challenges.SeparatorInPurposeCollides` | src/authn/src/authentication/challenge.rs:65-68 | a purpose holding the separator would collide |
| `Challenges.PutJson` | src/authn/src/authentication/challenge.rs:24-43 | stores the payload under the challenge key if absent |
| `Challenges.ConsumeJson` | src/authn/src/authentication/challenge.rs:49-63 | takes and decodes it once |
| `Challenges.PrepareAuthorization` | src/authn/src/handler/oauth2.rs:61-207 | a refused return address, provider or adapter changes nothing; otherwise a redirect happens exactly when the challenge was stored |
| `Challenges.BeginCallback` | src/authn/src/handler/oauth2.rs:211-226 | the challenge is consumed before the provider is compared |
| `Challenges.FullCallback` | src/authn/src/handler/oauth2.rs:211-261 | issues exactly when the recorded challenge is for this provider and the provider vouches for the code under the recorded nonce and verifier, for the recorded link Principal |
| `Challenges.StepConserves` | src/authn/src/handler/oauth2.rs:160-261 | every step of any ceremony keeps: stored + pending + issued uses of a flow never exceed its authorizations |
| `Challenges.RunConserves` | src/authn/src/handler/oauth2.rs:160-261 | the same in every reachable state of every interleaving |
| `Challenges.IssuedWereBegun` | src/authn/src/handler/oauth2.rs:211-250 | every issued authentication uses up one authorization with the same state, provider, nonce, verifier and link Principal |
| `Challenges.AtMostOneIssue` | src/authn/src/handler/oauth2.rs:211-250 | with states that do not repeat, each state issues at most once, and nothing of it is left |
| `Challenges.WrongProviderSpends` | src/authn/src/handler/oauth2.rs:217-226 | a callback for another provider gets nothing and spends the challenge |
| `Challenges.ChallengeWaits` | src/common/src/cache/memory.rs:56-75 | until its callback or expiry a challenge survives every other step |
| `Challenges.CallbackObtains` | src/authn/src/handler/oauth2.rs:217-240 | the first callback of the right provider obtains exactly what was recorded |
| `ChallengeMeaning.KeySpelled` | src/authn/src/authentication/challenge.rs:65-68 | the key written out |
| `ChallengeMeaning.RecordedIff` | src/authn/src/handler/oauth2.rs:61-207 | what an authorization records, field by field, and when it records nothing |
| `ChallengeMeaning.ObtainsIff` | src/authn/src/handler/oauth2.rs:217-226 | a callback obtains exactly a recorded, unexpired challenge of its own provider |
| `ChallengeMeaning.IssuesIff` | src/authn/src/handler/oauth2.rs:217-250 | an undisturbed callback issues exactly when the provider vouches for the code under the recorded nonce and verifier, for an identity let in |
| `ChallengeMeaning.ObtainedWithinLifetime` | src/authn/src/handler/oauth2.rs:211-226 | a spared challenge is obtained if and only if the callback names its provider and comes within the lifetime in seconds |
| `ChallengeMeaning.AuthorizedWaits` | src/authn/src/handler/oauth2.rs:183-205 | an authorization that redirects has stored its challenge for that lifetime |
| `KeysetWalk.ReplacementsEscape` | src/common/src/storage/principal_postgres.rs:367-373 | the three successive replacements escape every metacharacter once |
| `KeysetWalk.SearchIsPrefix` | src/common/src/storage/principal_postgres.rs:314-325 | the listing's LIKE is a case-insensitive prefix search for every query |
| `KeysetWalk.List` | src/common/src/storage/principal_postgres.rs:308-329 | the first `limit` matching rows above the cursor, in id order, and nothing skipped |
| `KeysetWalk.ListPage` | src/authz/src/handler/principal.rs:255-271 | the page, its total and a cursor exactly on full pages; no cursor means nothing is left |
| `KeysetWalk.WalkIncreases` | src/authz/src/handler/principal.rs:255-271 | along any walk over a changing store ids strictly increase |
| `KeysetWalk.WalkVisits` | src/authz/src/handler/principal.rs:255-271 | a principal that stays and matches is listed, whatever else changes between pages |
| `KeysetWalk.WalkOnFixedStore` | src/authz/src/handler/principal.rs:255-271 | on a fixed store a walk lists exactly the matching principals |
| `KeysetWalk.VisitPage` | src/authz/src/handler/scim.rs:161-220 | the lookups for one page answer for every listed principal that stays |
| `KeysetWalk.WalkScim` | src/authz/src/handler/scim.rs:192-223 | the walk ends; no resource twice; every resource was there when looked up; no principal that stays is missed; an error means a stored claim that does not restore |
| `KeysetWalk.KeptMeans` | src/authz/src/principal/scim/scim.rs:249-256 | filtering keeps exactly the accepted resources, in order |
| `KeysetWalk.ScimPage` | src/authz/src/principal/scim/scim.rs:244-271 | the filter loop and the window compute the specified page, or refuse the filter |
| `KeysetWalk.PagesTile` | src/authz/src/principal/scim/scim.rs:257-270 | each page is followed by the one that starts where it ends, so pages neither overlap nor skip |
| `KeysetWalk.ListScim` | src/authz/src/handler/scim.rs:192-225 | the whole listing: the walk's guarantees, then the filtered page |
| `ListingMeaning.PageWindow` | src/authz/src/principal/scim/scim.rs:257-270 | the SCIM answer field by field: total, start, and the consecutive resources shown, at most `count` and 100 |
| `ListingMeaning.LookupIff` | src/authz/src/handler/scim.rs:161-184 | one lookup: shown, not found or failed, each exactly when |
| `ListingMeaning.PageLimit` | src/authz/src/handler/principal.rs:255-262 | a page holds 1 to 100 principals, as many as asked for within that |
| `ListingMeaning.CursorIff` | src/authz/src/handler/principal.rs:263-271 | the cursor is the last id of a full page, and there is none otherwise |
| `Federation.InOrder` | src/authz/src/handler/principal.rs:174-186 | iteration in key order lists each key once |
| `Federation.Deduplicate` | src/authz/src/handler/principal.rs:350-357 | the first principal of each key, in key order |
| `Federation.Merge` | src/authz/src/handler/principal.rs:182-187 | principals from the smallest provider id per key, cursors from the largest |
| `Federation.Search` | src/authz/src/handler/principal.rs:165-187 | Ok exactly when every provider succeeded, and then the merged page |
| `Federation.FirstIsWinner` | src/authz/src/handler/principal.rs:182-187 | in the concatenation by provider id the first with a key comes from the smallest id that has it |
| `Federation.MergedUnique` | src/authz/src/handler/principal.rs:165-187 | the description of the merged page leaves no freedom |
| `MergeMeaning.MergedMeans` | src/authz/src/handler/principal.rs:165-187 | the merged page by issuer and external id: ordered, each principal as the smallest provider id that knows it listed it first, each cursor from the largest that gave one |
| `MergeMeaning.CollectedMeans` | src/authz/src/handler/principal.rs:174-180 | with distinct ids the pages merged are those the tasks answered with |
| `Federation.CollectedPermuted` | src/authz/src/handler/principal.rs:174-180 | with distinct ids every completion order collects the same pages |
| `Federation.Confluent` | src/authz/src/handler/principal.rs:165-187 | every completion order answers with the same page |
| `Federation.EveryKeyOnce` | src/authz/src/handler/principal.rs:350-357 | every key of the union appears exactly once |
| `Federation.ConfluentIff` | src/authz/src/handler/principal.rs:165-187 | every answer of the providers merges to one page in every completion order if and only if their ids are distinct |
| `Federation.RepeatedIdRaces` | src/authz/src/handler/principal.rs:174-180 | for any list with a repeated id, answers whose completion order decides the page |
| `Federation.DuplicateProvidersRace` | src/authz/src/handler/principal.rs:174-180 | a concrete pair of completion orders with different merged pages |
| `Federation.SelectedProviders` | src/authz/src/handler/principal.rs:319-344 | a filter selects each named provider, or refuses exactly when a name is unknown or configured twice |
| `Base64Url.DecodeIff` | src/common/src/utils/context.rs:393-405 | unpadded base64url: decoding inverts encoding and accepts nothing else |
| `Base64Url.EncodedShape` | src/authz/src/handler/authorization.rs:914-926 | encoded text is URL-safe and of the exact length, 43 characters for 32 bytes |
| `Base64Url.LetterIs` | src/common/src/utils/context.rs:393-405 | the alphabet of section 5 of RFC 4648 |
| `Base64Url.GroupOfThree` | src/common/src/utils/context.rs:393-405 | three bytes and their four letters are one number of 24 bits |
| `Base64Url.EncodeConcat` | src/common/src/utils/context.rs:393-405 | groups of three bytes are encoded one after the other |
| `AccessContext.CurrentIff` | src/common/src/utils/context.rs:370-430 | a fresh context is accepted exactly with a lifetime of a whole second, within the clock skew and before expiry |
| `AccessContext.DecodeEncode` | src/common/src/utils/context.rs:393-407 | decoding undoes encoding exactly while the context is current |
| `AccessContext.VerifySigned` | src/common/src/utils/context.rs:324-364 | signing then verifying returns the payload exactly when it is non-empty and holds no dot |
| `AccessContext.VerifiedWasSigned` | src/common/src/utils/context.rs:338-364 | nothing but a signed payload verifies |
| `AccessContext.DirectRoundTrip` | src/common/src/utils/context.rs:324-430 | a current context survives encode, sign, verify, decode |
| `AccessContext.VerifyIff` | src/common/src/utils/context.rs:324-364 | a signed text verifies to a payload if and only if it is `agctx1.`, the payload and its signature between dots |
| `AccessContext.DecodesExactly` | src/common/src/utils/context.rs:402-430 | decoding accepts exactly canonical text of a context of version 3, issued at most 30 seconds ahead, and not over |
| `AccessContext.NewCarries` | src/common/src/utils/context.rs:370-387 | a fresh context carries its decision and lives for the whole seconds of its lifetime |
| `Delivery.NewTokensAreValid` | src/authz/src/handler/authorization.rs:914-926 | generated scope tokens pass the format check |
| `Delivery.NewTokensDiffer` | src/authz/src/handler/authorization.rs:914-926 | different random bytes make different tokens |
| `Delivery.PrepareDelivery` | src/authz/src/handler/authorization.rs:332-392 | direct exactly within both limits, otherwise one store of the re-issued context under a fresh token |
| `Delivery.AllowedHttpResponse` | src/authz/src/handler/authorization.rs:393-441 | the builder puts and removes exactly the specified headers |
| `Delivery.RemovedAre` | src/authz/src/handler/authorization.rs:401-433 | which names are removed, case aside |
| `Delivery.DisjointIff` | src/authz/src/handler/authorization.rs:393-441 | put and removed headers are disjoint if and only if the identity header is not the delivery header in use |
| `Delivery.OrderIrrelevantIff` | src/authz/src/handler/authorization.rs:401-406 | a gateway may apply the lists in either order exactly when they are disjoint |
| `Delivery.OneDeliveryHeader` | src/authz/src/handler/authorization.rs:393-441 | for any inbound headers exactly one delivery header survives, spoofable headers are gone, the credential is the re-signed token or nothing |
| `Delivery.SpoofableNames` | src/authz/src/handler/authorization.rs:401-433 | the headers removed in every case, by name |
| `Delivery.EnterDirect` | src/adapters/rust/src/filter.rs:43-106 | the filter recovers the access from the direct header |
| `Delivery.EnterToken` | src/adapters/rust/src/filter.rs:43-106 | and from the token |
| `Delivery.EnterCases` | src/adapters/rust/src/filter.rs:43-106 | both headers refuse, neither leaves the request unauthenticated, and so does a header nobody reads, except a token, which is refused |
| `Delivery.EnterOnlyTrusted` | src/adapters/rust/src/filter.rs:43-106 | access is granted only as the context of a signed header or of the scope service says, while it is current |
| `Delivery.ResolvesCached` | src/authz/src/handler/authorization.rs:931-980 | the scope service answers the cached context while it is current |
| `Delivery.ResolvesOnlyCurrent` | src/authz/src/handler/authorization.rs:931-980 | it answers nothing but the cached, current context of a well-formed token |
| `Delivery.FreshTokenIsCached` | src/authz/src/handler/authorization.rs:374-391 | a token just stored is cached as long as its context is current |
| `Delivery.DeliveryEquivalent` | src/authz/src/handler/authorization.rs:332-441 | for any inbound headers the filter recovers the same principal, action, resource and grants by either delivery |
| `Delivery.DeliveryEquivalentOverRun` | src/authz/src/handler/authorization.rs:332-441 | the same at any later point of any run of the cache |
| `Tokens.SortDedupMeans` | src/common/src/model/identity.rs:213-223 | sort and dedup: ascending, same members, no larger |
| `Tokens.GroupsReadBack` | src/common/src/model/identity.rs:198-224 | projected groups are read back unchanged |
| `Tokens.ProjectContext` | src/authn/src/handler/authentication.rs:196-214 | the accumulating loop computes the specified projection |
| `Tokens.ProjectedKept` | src/authn/src/handler/authentication.rs:196-260 | only unreserved scalar claims, within the cap; what was passed over does not fit |
| `TokenReading.ProjectedIff` | src/authn/src/handler/authentication.rs:196-214 | a claim is kept if and only if it may pass and fits beside the ones kept before it |
| `TokenReading.GroupsProjected` | src/authn/src/handler/authentication.rs:178-194 | the given groups listed once each in order, or none when they are too many, too long or malformed |
| `Tokens.DistinctMethods` | src/common/src/model/identity.rs:348-354 | methods once each in first-given order |
| `TokenReading.FirstMentions` | src/common/src/model/identity.rs:348-354 | each method at its first mention, in the order of first mentions |
| `Tokens.ReadScalars` | src/common/src/model/identity.rs:118-132 | the scalar claims beyond the boundary and their exact size, in any iteration order |
| `Tokens.JwtRoundTrip` | src/common/src/utils/jwt.rs:67-103 | a signed token verifies to its payload |
| `TokenReading.VerifyJwtIff` | src/common/src/utils/jwt.rs:67-103 | a token verifies to a payload if and only if it is the header, the payload and some signature between dots, and that signature verifies |
| `TokenReading.AuthenticateIff` | src/authn/src/authentication/token.rs:157-179 | authentication answers a principal if and only if the signature verifies and the claims name this issuer and audience, one non-empty subject, a later expiry, and stand for that principal |
| `TokenReading.StandsForIff` | src/common/src/model/identity.rs:89-145 | what principal claims stand for: id, kind, groups, trusted texts with `mfa`, methods and assurance |
| `TokenReading.IssuedClaims` | src/authn/src/authentication/token.rs:81-113 | the claims of an issued token, name by name |
| `TokenReading.BoundaryNames` | src/common/src/model/identity.rs:246-267 | the names that never pass as trusted claims |
| `TokenReading.ScalarTexts` | src/common/src/model/identity.rs:237-244 | how each JSON value is written as a claim |
| `Tokens.ScalarsOfClaims` | src/authn/src/authentication/token.rs:89-110 | of the issued claims exactly the trusted ones and `auth_time` pass the reader's boundary |
| `Tokens.IssueAuthenticate` | src/authn/src/authentication/token.rs:81-179 | authenticate after issue gives the context with `auth_time` and `mfa` set exactly before expiry and within the reader's cap, otherwise refuses |
| `Tokens.PipelineRoundTrip` | src/authn/src/handler/authentication.rs:139-215 | the same for any authentication's projected claims and groups, with room for `auth_time` as the sufficient bound |
| `Tokens.FullProjectionRefused` | src/authn/src/handler/authentication.rs:196-214 | projection alone may fill the cap, and then the issued token is refused |
| `Witnesses.TokenLawsMet` | src/common/src/utils/jwt.rs:67-103 | the laws assumed of JSON, RSA and string order for identity tokens hold of concrete functions |
| `Witnesses.ContextLawsMet` | src/common/src/utils/context.rs:324-407 | so do those for access contexts |
| `Witnesses.ChallengeLawsMet` | src/authn/src/authentication/challenge.rs:24-68 | and those for challenges |
| `Witnesses.DeliveryMet` | src/authz/src/handler/authorization.rs:332-441 | all hypotheses of the delivery theorem hold together of some input |
| `Witnesses.DeliveryRunMet` | src/common/src/cache/memory.rs:90-132 | and so do those of its statement over runs |

## Left out

- SQL NULLs and collation: columns are non-null and compared exactly; ids are ordered by any strict total order with "" least.
- Column names that are not plain SQL words: the mapping names used in the text are assumed to be identifiers that are not keywords.
- Error texts and kinds: a refusal is one value, except where account linking distinguishes its errors.
- Tagged YAML values and the text form of YAML: a tree of null, scalars, sequences and mappings; reading text is a parameter.
- ConfigPath.SetYamlPath: the tree is a value and the method returns the new one; the original updates it through an exclusive reference, so no aliasing is lost.
- Saturation of the cache's access counter: the run theorems cover runs of up to 2^64 - 1 calls.
- Blank-value checks of the database schema, timestamps and JSON columns of the principal tables.
- KeysetWalk.WalkScim: the number of distinct ids that ever exist during one walk is finite, as in every walk that ends.
- KeysetWalk.ScimPage: the text of a filter expression is not parsed; a filter is any test of a resource, or unsupported.
- Repeated header lines: a request has one value per header name.
- Federation.Search: cancellation of the other provider tasks after the first error is not modelled.
- Challenges.PrepareAuthorization: how a return address is validated and what a provider's adapter answers are parameters.
- AccountLinking.Register: normalising the login, the password policy and hashing enter as their outcomes; two calls that race for one login are decided by the write of the credential, whose outcome is a parameter.
- Redis, SQLite, gRPC and HTTP transport, LDAP, Keycloak and custom directory connectors, logging and metrics: input and output only.
- Policy evaluation, password, TOTP, WebAuthn and wallet verification, SCIM resource mapping, configuration validation: not part of this model.
- Re-signing of gateway tokens: its claims are a plain record; the model takes the re-signed token as given.
