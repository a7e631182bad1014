# Tessera: a verified model of its stateful core

A Dafny model of the parts of Tessera, a Python authentication library, whose correctness depends on state
that outlives a call: the in-process cache and the two rate limiters on it, the role engine, the in-memory
user and OIDC indexes, the audit hash chain and its queue, the DynamoDB codec and update compiler, the
Cognito SRP exchange, refresh-token rotation, the circuit breaker, organization membership, and the SQL
`LIKE` search. Check everything with `dafny verify dfyconfig.toml`.

| file | component |
|---|---|
| `MemoryCache.dfy` | the cache as a class, against an eager timed store |
| `BotProtection.dfy`, `FixedWindow.dfy` | the sliding-window and the fixed-window limiter, over the cache class |
| `RoleGraph.dfy`, `RoleManager.dfy` | role inheritance and permission evaluation |
| `UniqueIndex.dfy`, `UserStore.dfy`, `OidcProviders.dfy` | unique secondary indexes |
| `AuditChain.dfy`, `AuditQueue.dfy` | the hash chain; the logger's queue under interleaving |
| `DynamoCodec.dfy`, `DynamoUpdate.dfy` | the value codec; the `SET` expression compiler |
| `Srp.dfy` | the SRP-6a shared secret |
| `TokenLedger.dfy`, `RefreshRotation.dfy` | refresh-token rotation, one call at a time and interleaved |
| `CircuitBreaker.dfy` | the breaker with overlapping calls |
| `Organizations.dfy` | members, owners and invitations |
| `LikeSearch.dfy` | escaped `LIKE` patterns and user search |
| `Prelude.dfy`, `Decimal.dfy` | shared types, text helpers, decimal numerals |

How it is stated. Objects that the code updates in place are classes; each method's contract says what the
whole new state is, and `Valid()` is the invariant. Clock readings, random ids and tokens, and the outcome of
a database save are parameters. `async` methods of the in-memory backends never suspend, so one call is one
step; where the code does suspend with shared state (rotation, audit flush, breaker) each stretch between two
awaits is one action of a state machine, and the results range over every run. sha256 over canonical JSON is
an arbitrary function into an abstract digest type, assumed injective and never equal to the genesis value only
where a result says so (`Ideal`; `IdealHashExists` shows that such functions exist). Times are real numbers.

Where the code differs from what its own documentation suggests, the code is modelled:

- `verify_audit_chain` says that after pruning the oldest kept event counts as the new genesis. It does not:
  the first stored link must be the genesis checksum (`RunVerifiesIff`, `PrunedVerifiesIff`).
- Audit timestamps need not be in storage order (a synchronous event is stored before older queued ones), and
  a prune can then cut out the middle of the chain (`OutOfOrderPruneLeavesGap`). Timestamps and cutoffs decide
  which runs end in a chain that verifies (`AnyRunVerifiesIff`).
- A wildcard grant that ends in `**` does not cover everything covered by what it covers (`MatchTransitiveIff`).
- `set` with a non-positive lifetime raises, but only after storing the value (`InMemoryCache.Put`).
- A call admitted before the breaker tripped closes it when it succeeds, while the probe is still out
  (`StaleSuccessCloses`). Only probes can close it exactly while every call in flight started after the latest
  counted failure (`OnlyProbesCloseIff`). Successes of a closed breaker do not reset its count (`FailuresAccumulate`).
- Flushes in flight together can store batches out of order (`TwoFlushesCanReorder`). The order is kept exactly
  when each save that commits belongs to the oldest flush in flight and each failed batch that comes back belongs
  to the newest (`RunOrderedIff`).
- `incr` on a live list or hash key leaves two values under one key, and nothing else does
  (`OneTypeIffIncrWellPlaced`).
- Creating a user or provider under an id in use overwrites the record and leaves its index entries behind
  (`CreateUser`, `SaveProvider`).
- An update of an attribute with the empty name is refused by the database: its placeholder is a bare `#`
  (`CompileUpdate`).
- A provider update that raises on the slug keeps its new issuer (`MoveBoth`).
- An invitation is used up even when the member cap then stops the join (`AcceptFound`).
- The in-memory user search reads a stored `None` as the text "None"; the SQL search does not (`SearchesAgreeIff`).
- Reading back a number of more than 28 digits from DynamoDB raises (`DecodeEncode`); tuples come back as lists
  and dates as texts (`ComesBackIff`).

## Model

| member | source | states |
|---|---|---|
| MemoryCache.LazyRefinesEager | tessera/cache/memory_cache.py:41-197 | over every run of any operations with a nondecreasing clock, the replies of the lazily purged cache are those of a store that drops all expired keys before each call |
| MemoryCache.CallAgrees | tessera/cache/memory_cache.py:41-58 | one call keeps both stores indistinguishable at every key and every later time |
| MemoryCache.Confined | tessera/cache/memory_cache.py:41-68 | a change confined to the operation's key is a step of the reference; every deadline has a key, no list is empty |
| MemoryCache.FindLater | tessera/cache/memory_cache.py:41-47 | what an observer sees later follows from what is seen now |
| MemoryCache.CallOneTypeIff | tessera/cache/memory_cache.py:93-104 | a call leaves every key with one type exactly when it is not an `incr` on a live list or hash |
| MemoryCache.OneTypeIffIncrWellPlaced | tessera/cache/memory_cache.py:70-195 | on every run from an empty cache, every key has one type after every call exactly when no call was such an `incr` |
| MemoryCache.FirstInFirstOut | tessera/cache/memory_cache.py:126-148 | on every run on which a key is used as a queue, what has been popped and what still waits, oldest first, is exactly what has been pushed, in order |
| MemoryCache.GetAfterPut | tessera/cache/memory_cache.py:70-81 | a text is read back until its lifetime is over and not from then on |
| MemoryCache.GetAfterBadPut | tessera/cache/memory_cache.py:60-81 | after a raised `set` the value is there, for as long as the old one would have been |
| MemoryCache.DeleteRemoves | tessera/cache/memory_cache.py:83-89 | `exists` and `delete` tell whether the key is there; a deleted key is gone for good |
| MemoryCache.IncrCounts | tessera/cache/memory_cache.py:93-104 | a counter starts at one, goes up by one, reads back as its numeral and keeps its deadline; a text that is no number raises and stays |
| MemoryCache.ExpireMeans | tessera/cache/memory_cache.py:106-113 | what a key holds is there until the new deadline and not from then on; each refusal with its cause |
| MemoryCache.TtlMeans | tessera/cache/memory_cache.py:115-122 | -2 exactly without the key, -1 exactly for a key that never lapses, else the least whole number of seconds after which it is gone |
| MemoryCache.LPushMeans | tessera/cache/memory_cache.py:126-138 | the values stand in front of the old elements, the last one first, until the old deadline |
| MemoryCache.RPopTakesLast | tessera/cache/memory_cache.py:140-148 | the last element is answered, the others stay with their deadline, an emptied list is gone |
| MemoryCache.LRangeSelects | tessera/cache/memory_cache.py:150-163 | just the elements whose position lies between the bounds, negative ones counted from the end |
| MemoryCache.HGetAllAfterHSet | tessera/cache/memory_cache.py:167-181 | new fields win, old ones and the deadline stay |
| MemoryCache.HGetAllAfterHDel | tessera/cache/memory_cache.py:179-195 | just the named fields go, each counted once; an emptied hash is gone |
| MemoryCache.InMemoryCache.PurgeIfExpired | tessera/cache/memory_cache.py:41-47 | drops the key from all four dictionaries exactly when its deadline has come; what remains is what is visible now |
| MemoryCache.InMemoryCache.RemoveKey | tessera/cache/memory_cache.py:52-58 | removes the key everywhere and reports whether it existed |
| MemoryCache.InMemoryCache.SetExpiry | tessera/cache/memory_cache.py:60-66 | no lifetime clears the deadline, a non-positive one raises and changes nothing |
| MemoryCache.InMemoryCache.Get | tessera/cache/memory_cache.py:70-72 | behaves as on the eager store, at every key and every later time |
| MemoryCache.InMemoryCache.Put | tessera/cache/memory_cache.py:74-81 | replaces a key of any type; a bad lifetime raises with the value stored and the old deadline kept |
| MemoryCache.InMemoryCache.Delete | tessera/cache/memory_cache.py:83-85 | true exactly when the key was live; the key is then absent for good |
| MemoryCache.InMemoryCache.Exists | tessera/cache/memory_cache.py:87-89 | true exactly when the key is live |
| MemoryCache.InMemoryCache.Incr | tessera/cache/memory_cache.py:93-104 | counts up keeping the deadline, raises on a text that is no number; on a list or hash the counter is added beside the old value |
| MemoryCache.InMemoryCache.Expire | tessera/cache/memory_cache.py:106-113 | false on an absent key, else a new deadline; a non-positive lifetime raises on an existing key only |
| MemoryCache.InMemoryCache.Ttl | tessera/cache/memory_cache.py:115-122 | -2 when absent, -1 without deadline, else the rounded-up rest |
| MemoryCache.InMemoryCache.LPush | tessera/cache/memory_cache.py:126-138 | the values end up in front in reverse order, a non-list is replaced, the deadline stays |
| MemoryCache.InMemoryCache.RPop | tessera/cache/memory_cache.py:140-148 | takes the last element; an emptied list disappears with its deadline |
| MemoryCache.InMemoryCache.LRange | tessera/cache/memory_cache.py:150-163 | inclusive bounds, negative ones from the end, clamped |
| MemoryCache.InMemoryCache.HSet | tessera/cache/memory_cache.py:167-177 | merges the fields, a non-hash is replaced, the deadline stays |
| MemoryCache.InMemoryCache.HGetAll | tessera/cache/memory_cache.py:179-181 | the live fields |
| MemoryCache.InMemoryCache.HDel | tessera/cache/memory_cache.py:183-195 | removes the named fields, counts each once, and drops an emptied hash |
| MemoryCache.InsertFront | tessera/cache/memory_cache.py:136-137 | inserting one by one at the front gives the reversed values before the list |
| MemoryCache.DeleteFields | tessera/cache/memory_cache.py:188-192 | the count is the number of distinct fields that were present |
| Decimal.ReadShow | tessera/cache/memory_cache.py:98-103 | printing a counter and parsing it gives the same integer |
| Decimal.ShowIsDecimal | tessera/cache/memory_cache.py:98-103 | a numeral is that of the tens, then the last digit; a sign for negative numbers |
| Decimal.ReadsIff | tessera/cache/memory_cache.py:98-103 | a text is a number exactly when it is an optional sign and at least one digit |
| BotProtection.ChecksMatchFullHistory | tessera/bot_protection/bot_protection_manager.py:158-197 | on every run a check is admitted exactly when fewer than the budget of the identifier's admissions are less than 60 s old and fewer than the budget less than 3600 s; it is refused by the minute, with its count, whenever that is full, and by the hour, with its count, only when the minute has room |
| BotProtection.CacheTracksHistory | tessera/bot_protection/bot_protection_manager.py:128-197 | at every point of a run, for every identifier, the cache counts exactly what the full history counts, now and later |
| BotProtection.BudgetPerInterval | tessera/bot_protection/bot_protection_manager.py:158-197 | no half-open interval of 60 s or 3600 s holds more admissions than its budget |
| BotProtection.ExpiryInvisible | tessera/bot_protection/bot_protection_manager.py:154-155 | a list dropped at its deadline held nothing that still counts |
| BotProtection.TrimKeepsCounted | tessera/bot_protection/bot_protection_manager.py:135-156 | trimming, re-pushing and the new deadline change nothing that counts at any later time |
| BotProtection.RecordAddsOne | tessera/bot_protection/bot_protection_manager.py:192-196 | recording an admission adds just that admission to what counts |
| BotProtection.RetryAfterSuffices | tessera/bot_protection/bot_protection_manager.py:176-190 | a refused caller that waits 60 s, or 3600 s, as announced, finds the exceeded window empty |
| BotProtection.KeysDistinct | tessera/bot_protection/bot_protection_manager.py:122-124 | the keys of distinct identifiers and windows differ |
| BotProtection.BotProtectionManager.KeepRecent | tessera/bot_protection/bot_protection_manager.py:139-146 | keeps the readable entries inside the window, in order |
| BotProtection.BotProtectionManager.Rebuild | tessera/bot_protection/bot_protection_manager.py:148-152 | delete and reversed re-push give the same order back, without a deadline |
| BotProtection.BotProtectionManager.WindowCount | tessera/bot_protection/bot_protection_manager.py:128-156 | returns the number of survivors, leaves exactly those stored, and touches no other key |
| BotProtection.BotProtectionManager.Measure | tessera/bot_protection/bot_protection_manager.py:128-156 | the same call seen from the window: what counts stays the same at every later time |
| BotProtection.BotProtectionManager.CheckRateLimit | tessera/bot_protection/bot_protection_manager.py:158-197 | admitted exactly when both stored lists hold fewer stamps inside their window than the budget, with the exact cause and count of each refusal; an admission is added to both, a refusal to neither |
| BotProtection.BotProtectionManager.RecordAction | tessera/bot_protection/bot_protection_manager.py:337-351 | the ledger holds the newest 100 entries, newest first, for a day from the last one |
| FixedWindow.IntervalHoldsTwiceBudget | tessera/frameworks/fastapi_adapter.py:254-290 | on every run a half-open interval as long as the window holds at most twice the budget |
| FixedWindow.AllowedIff | tessera/frameworks/fastapi_adapter.py:263-288 | on every run each request belongs to the window some request opened and is allowed exactly when, with it, at most the budget of requests has been made in that window; a refused caller is told the least whole number of seconds, one at least, to the end of it |
| FixedWindow.CacheTracksWindows | tessera/frameworks/fastapi_adapter.py:263-288 | the counter cell is the newest reference window; windows are disjoint and each keeps its budget |
| FixedWindow.OverlapBound | tessera/frameworks/fastapi_adapter.py:274-288 | such an interval meets at most two windows |
| FixedWindow.WindowsHoldAllowed | tessera/frameworks/fastapi_adapter.py:274-288 | the windows hold exactly the requests let through |
| FixedWindow.FrameworkAdapter.Count | tessera/frameworks/fastapi_adapter.py:273-278 | increments and arms a first call or a counter without deadline |
| FixedWindow.FrameworkAdapter.RateLimit | tessera/frameworks/fastapi_adapter.py:263-288 | a fresh window on an absent key, else only the count moves; after the announced wait the window is over |
| RoleGraph.NewEdgeAcyclicIff | tessera/admin/rbac_manager.py:243-254 | a new parent keeps the graph acyclic exactly when the role is not already above it |
| RoleGraph.RepeatIsEndless | tessera/admin/rbac_manager.py:243-254 | a chain that meets a node twice never ends |
| RoleGraph.NewRoleAcyclic | tessera/admin/rbac_manager.py:155-169 | creating a role under a fresh id cannot close a cycle, dangling parents included |
| RoleGraph.FewerEdgesAcyclic | tessera/admin/rbac_manager.py:211-222 | deleting roles, leaving children dangling, cannot close a cycle |
| RoleGraph.MatchTransitiveIff | tessera/admin/rbac_manager.py:83-95 | wildcard matching from a grant is transitive exactly when the grant does not end in two stars |
| RoleGraph.CoversIff | tessera/admin/rbac_manager.py:83-95 | a permission covers itself, a grant with a star just the non-empty permissions that start with what stands before the star, any other only itself |
| RoleGraph.InheritsIff | tessera/admin/rbac_manager.py:385-399 | a role has its own permissions and what its parent, if that exists, has |
| RoleGraph.ClosedCoversChain | tessera/admin/rbac_manager.py:385-399 | a set closed under present parents contains the whole present chain |
| RoleManager.RoleStore.SaveRole | tessera/db/memory.py:796-814 | refused exactly without a name or when another role has it, else the record is stored under its id |
| RoleManager.RoleStore.DeleteRole | tessera/db/memory.py:824-833 | refused exactly while an assignment names the role |
| RoleManager.RoleStore.QueryRoleAssignments | tessera/db/memory.py:849-868 | exactly the user's assignments that pass the given filters |
| RoleManager.MatchingInOrder | tessera/db/memory.py:857-868 | the answer keeps the stored order |
| RoleManager.LiveInOrder | tessera/admin/rbac_manager.py:327-334 | dropping expired assignments keeps the order |
| RoleManager.Manager.EnsureLoaded | tessera/admin/rbac_manager.py:121-129 | afterwards the cache equals the stored roles |
| RoleManager.Manager.CheckCycle | tessera/admin/rbac_manager.py:243-254 | on any graph it stops, and raises exactly when the role is on the parent's chain or that chain is endless; on an acyclic graph, exactly in the first case |
| RoleManager.Manager.CreateRole | tessera/admin/rbac_manager.py:136-169 | every refusal with its cause and unchanged state, else just the new role; graph stays acyclic, cache equal to store |
| RoleManager.Manager.UpdateRole | tessera/admin/rbac_manager.py:171-209 | every refusal, a cycle exactly when the edge would close one; else the merged record; graph stays acyclic, cache equal to store |
| RoleManager.Manager.DeleteRole | tessera/admin/rbac_manager.py:211-222 | system and assigned roles are refused; graph stays acyclic, cache equal to store |
| RoleManager.Manager.ResolveRolePermissions | tessera/admin/rbac_manager.py:385-399 | on any graph, even a cyclic one, exactly the permissions of the role and of all present ancestors |
| RoleManager.Manager.GetUserAssignments | tessera/admin/rbac_manager.py:310-334 | exactly the user's assignments in the scope and with the scope id asked for, if any, in order; expired ones only on request |
| RoleManager.Manager.GetUserRoles | tessera/admin/rbac_manager.py:351-370 | exactly the existing roles of the unexpired assignments that are global or of just this scope and id, each once |
| RoleManager.Manager.HasPermission | tessera/admin/rbac_manager.py:401-410 | true exactly when an unexpired assignment, global or of just this scope and id, gives a role that has or inherits a permission equal to the request or with a prefix of it before a star |
| RoleManager.OutOfScopeRefused | tessera/admin/rbac_manager.py:338-349 | nothing is granted in a scope in which all the user's unexpired assignments differ in type or in id and none is global |
| RoleManager.GrantedMonotone | tessera/admin/rbac_manager.py:338-410 | adding permissions to any roles, or assignments, revokes nothing |
| RoleManager.GlobalGrantHoldsEverywhere | tessera/admin/rbac_manager.py:338-349 | a grant in global scope holds in every scope and at every earlier time |
| RoleManager.WildcardCoversNarrower | tessera/admin/rbac_manager.py:83-95 | whoever holds a wildcard holds what it covers, if no inherited grant ends in two stars |
| UniqueIndex.ExactReplace | tessera/db/memory.py:160-182 | un-index, change, re-index leaves the index exact when the new key was free |
| UniqueIndex.OverwriteExactIff | tessera/db/memory.py:225-226 | storing over an id keeps the index exact exactly when the id held no record with a key |
| UniqueIndex.KeysUnique | tessera/db/memory.py:184-205 | an exact index makes the identifier unique |
| UserStore.InMemoryUsers.CheckUnique | tessera/db/memory.py:184-205 | reports the first identifier that some other user carries, by a scan of all users |
| UserStore.InMemoryUsers.CreateUser | tessera/db/memory.py:207-228 | for any id: refused exactly when some user carries an identifier; else stored, and the three indexes stay exact exactly when the id is not empty and was not that of a user with an identifier |
| UserStore.InMemoryUsers.GetUserByIdentifier | tessera/db/memory.py:234-251 | returns exactly the user that a linear scan finds by email, else username, else phone |
| UserStore.InMemoryUsers.UpdateUser | tessera/db/memory.py:253-274 | refused exactly on immutable fields or a conflict; identifiers may change or be cleared, indexes stay exact |
| UserStore.InMemoryUsers.DeleteUser | tessera/db/memory.py:276-281 | removes the user, indexes stay exact |
| UserStore.IdentifiersUnique | tessera/db/memory.py:184-205 | no two users share an email or a username, in any case, or a phone number |
| UserStore.ScanMeans | tessera/db/memory.py:234-251 | what the lookup finds: the email asked for in any case, if some user has it, else the username in any case, else the phone number |
| Prelude.LowerEqIff | tessera/db/memory.py:160-170 | two texts have the same key exactly when they are equal up to the case of their letters |
| OidcProviders.InMemoryProviders.SaveProvider | tessera/db/memory.py:1011-1032 | for any id: refused on a missing or taken issuer or slug, else stored, and both indexes stay exact exactly when the id is not empty and was unused |
| OidcProviders.InMemoryProviders.FindId | tessera/db/memory.py:1034-1040 | by issuer, else by slug in any case, else nothing |
| OidcProviders.InMemoryProviders.MoveBoth | tessera/db/memory.py:1060-1079 | the issuer moves before the slug is looked at; if the slug is taken the issuer stays moved; indexes stay exact |
| OidcProviders.MovedMeans | tessera/db/memory.py:1060-1079 | which move is refused, and what issuer and slug every outcome leaves |
| OidcProviders.SlugInAnyCase | tessera/db/memory.py:1034-1040 | the case of a slug does not matter to the lookup |
| OidcProviders.InMemoryProviders.UpdateProvider | tessera/db/memory.py:1042-1085 | whatever it returns or raises, both indexes stay exact; the state left is given for every outcome |
| AuditChain.IdealHashExists | tessera/db/memory.py:541-554 | the assumption made of the hash can be met |
| AuditChain.SameLastChecksumSamePayloads | tessera/db/memory.py:541-570 | with an ideal hash, two verifying chains with the same last checksum have the same length and payloads |
| AuditChain.TamperingShows | tessera/db/memory.py:698-718 | any change of the payload sequence changes the last checksum or fails verification |
| AuditChain.VerifyIgnoresIds | tessera/db/memory.py:38-39 | ids and sequence numbers are not protected |
| AuditChain.PrunedVerifiesIff | tessera/db/memory.py:627-643 | pruning any verifying chain leaves one that verifies exactly when no event older than the cutoff stands before one that is not |
| AuditChain.AnyRunVerifiesIff | tessera/db/memory.py:556-718 | after any run of appends and prunes in any time order, verification accepts exactly when an outline made of timestamps and cutoffs alone is sound to its end |
| AuditChain.RunOutlined | tessera/db/memory.py:556-643 | that outline gives the stored timestamps and the length of the soundly linked front at every point |
| AuditChain.RunIsTail | tessera/db/memory.py:556-570 | every run in time order stores a contiguous tail of a fully linked log |
| AuditChain.RunVerifiesIff | tessera/db/memory.py:698-718 | after such a run verification accepts exactly when the chain is empty or its first link is the genesis checksum, that is, nothing was pruned since it was last empty |
| AuditChain.OutOfOrderPruneLeavesGap | tessera/db/memory.py:636-640 | out of time order a prune can remove a middle event and break the chain |
| AuditChain.LinkedSnoc | tessera/db/memory.py:563-567 | a longer chain is linked exactly when the shorter one is and the last record links to it |
| AuditChain.AuditLog.SaveAuditEvent | tessera/db/memory.py:556-575 | appends one record, numbered by the caller or by position, and indexes it; a verifying chain stays verifying |
| AuditChain.AuditLog.SaveAuditEvents | tessera/db/memory.py:577-584 | appends the whole batch in order; a verifying chain stays verifying |
| AuditChain.AuditLog.DeleteAuditEventsBefore | tessera/db/memory.py:627-643 | keeps the events at or after the cutoff, in order, counts the rest, and rebuilds the id index |
| AuditChain.AuditLog.GetAuditEvent | tessera/db/memory.py:623-625 | finds the newest stored event with the id, and nothing exactly when there is none |
| AuditChain.ByIdMeans | tessera/db/memory.py:569 | what the id index holds, by a scan of the chain |
| AuditChain.AuditLog.VerifyAuditChain | tessera/db/memory.py:698-718 | accepts exactly the chains linked from the genesis checksum |
| DynamoCodec.DecodeEncode | tessera/db/dynamodb_adapter.py:293-357 | for every nested value, decoding what was encoded gives the value with tuples as lists and dates as texts exactly when all integers have at most 28 digits, and raises otherwise |
| DynamoCodec.ComesBackIff | tessera/db/dynamodb_adapter.py:293-357 | a value comes back as it was exactly when its integers fit and it holds no tuple, date or other object |
| DynamoCodec.DecodeEncodeItem | tessera/db/dynamodb_adapter.py:293-333 | the same for whole items, whatever their keys look like |
| DynamoCodec.ListRoundTrip | tessera/db/dynamodb_adapter.py:309-322 | the string-set, number-set and list encodings all come back as the same list |
| DynamoCodec.ScalarTags | tessera/db/dynamodb_adapter.py:297-305 | the tag and the text of every scalar |
| DynamoCodec.ListTags | tessera/db/dynamodb_adapter.py:309-322 | which lists become string sets, number sets and lists |
| DynamoCodec.TupleComesBackAsList | tessera/db/dynamodb_adapter.py:303-322 | a tuple of plain values comes back as the list of them, a date as its text |
| DynamoCodec.FitsIffDigits | tessera/db/dynamodb_adapter.py:335-340 | an integer fits exactly when its numeral has at most 28 digits |
| DynamoUpdate.CompileUpdate | tessera/db/dynamodb_adapter.py:441-467 | parsed with the database's grammar and evaluated on any item, the request lays the updates over it when no key is empty and the condition's names and values keep clear of the generated ones; without updates or with an empty key it is refused; placeholders are distinct and bound to just their key and value |
| DynamoUpdate.BuildParts | tessera/db/dynamodb_adapter.py:441-455 | one part per update, over pairwise distinct placeholders and value references |
| DynamoUpdate.UniquePlaceholder | tessera/db/dynamodb_adapter.py:445-452 | the suffix loop stops for every key and every set of names in use, at the first free candidate |
| DynamoUpdate.ParseJoined | tessera/db/dynamodb_adapter.py:455-463 | the expression text parses back into its assignments exactly when each placeholder has a character after its sign |
| DynamoUpdate.OverrideMeans | tessera/db/dynamodb_adapter.py:425-440 | laying updates over an item sets just their keys |
| DynamoUpdate.UpdateThenRead | tessera/db/dynamodb_adapter.py:360-367 | the record read back after an update is the plain form of the old record with the updates, without the six key and index attributes, exactly when all integers fit |
| Decimal.ShowInjective | tessera/db/dynamodb_adapter.py:452-455 | distinct suffixes and reference numbers print differently |
| Srp.SecretsAgree | tessera/cognito/cognito_manager.py:231-232 | client and server secrets agree for every modulus and all secrets, negative base included (section 2.6 of RFC 5054) |
| Srp.SharedSecretIsPower | tessera/cognito/cognito_manager.py:231-232 | that secret is the generator to the power b(a + ux) modulo n, in any list of its powers |
| Srp.PowIsPower | tessera/cognito/cognito_manager.py:164 | the power function is the only one that starts at one and multiplies by the base at each step |
| Srp.CognitoSrp.constructor | tessera/cognito/cognito_manager.py:164-167 | the public value is the generator to the secret exponent, in any list of its powers, modulo n |
| Srp.CognitoSrp.EphemeralCheck | tessera/cognito/cognito_manager.py:165-167 | refused exactly when that power is a multiple of the modulus |
| Srp.CognitoSrp.Respond | tessera/cognito/cognito_manager.py:194-256 | refuses an incomplete challenge, a server value that is a multiple of the modulus and a zero mixing value; a server that knows the verifier expects just the signature sent, whatever its secret |
| TokenLedger.AuthManager.StorePair | tessera/core/auth_manager.py:311-326 | stores the three entries with their lifetimes and touches nothing else |
| TokenLedger.AuthManager.RefreshToken | tessera/core/auth_manager.py:329-377 | refused exactly when the ledger does not know the token, and then nothing changes; otherwise the old entry is gone for good and the new one lives its whole lifetime |
| RefreshRotation.RotationIsLinear | tessera/core/auth_manager.py:348-373 | under any interleaving each token is claimed at most once, each login's tokens form one chain without forks, and only the last can be live (section 5.2.2.3 of RFC 6819) |
| RefreshRotation.ClaimedStaysRefused | tessera/core/auth_manager.py:351-356 | a claimed token is refused at every later point of every run |
| RefreshRotation.StepKeeps | tessera/core/auth_manager.py:286-377 | every stretch between awaits, expiry and crash keeps the chain invariant |
| RefreshRotation.UndisturbedRefresh | tessera/core/auth_manager.py:348-373 | one undisturbed refresh on the cache is a claim, a mint and a save, where the ledger is the set of tokens with a live entry |
| RefreshRotation.LoginGivesLiveToken | tessera/core/auth_manager.py:286-326 | a login that is not disturbed leaves a live token, and that token can be claimed |
| RefreshRotation.UndisturbedLogin | tessera/core/auth_manager.py:311-326 | storing the pair of a login in the cache is such a login and its save |
| RefreshRotation.TwoRefreshesSucceed | tessera/core/auth_manager.py:329-377 | a login, a refresh with its token and a refresh with the new one all go through; just the newest token is live then |
| RefreshRotation.ClaimingRun | tessera/core/auth_manager.py:348-373 | a run with a successful claim |
| RefreshRotation.DeadTokenStaysDead | tessera/core/auth_manager.py:356-373 | a coroutine that dies takes its token with it: it is never live again |
| RefreshRotation.RefusedCallIsReject | tessera/core/auth_manager.py:351-356 | a refused one is a rejection |
| RefreshRotation.TimeOnlyLapses | tessera/cache/memory_cache.py:41-47 | as time passes, the ledger of the cache becomes that of the state after some of its entries have lapsed |
| AuditQueue.NothingLost | tessera/admin/audit_logger.py:319-344 | no interleaving loses or duplicates an event: logged equals stored plus in flight plus queued |
| AuditQueue.EachEventOnce | tessera/admin/audit_logger.py:319-344 | on every run each event is stored, in flight or queued exactly as often as it has been logged |
| AuditQueue.LoggedIsStored | tessera/admin/audit_logger.py:319-344 | an event logged to the queue is stored last by the next flush, if nothing comes between; a direct one at once |
| AuditQueue.StepOrderedIff | tessera/admin/audit_logger.py:330-344 | with distinct events, a step from an ordered state stays ordered exactly when a commit takes the oldest flush and a re-queue the newest |
| AuditQueue.RunOrderedIff | tessera/admin/audit_logger.py:330-344 | with distinct events, a run is in log order at every point exactly when all its steps are of that kind |
| AuditQueue.OneFlushKeepsOrder | tessera/admin/audit_logger.py:330-344 | so with at most one flush in flight, stored, in-flight and queued events stand in log order, failed saves included |
| AuditQueue.TwoFlushesCanReorder | tessera/admin/audit_logger.py:330-344 | a run in which the later batch is stored first |
| AuditQueue.UndisturbedFlush | tessera/admin/audit_logger.py:330-344 | the steps of one flush that nothing disturbs store the whole queue, or leave the state as it was |
| AuditQueue.AuditLogger.Flush | tessera/admin/audit_logger.py:330-344 | writes the whole queue, or raises and leaves it as it was |
| AuditQueue.AuditLogger.Log | tessera/admin/audit_logger.py:319-328 | the queue stays below its limit unless the flush raises; no event is lost from stored plus queued |
| CircuitBreaker.ClosedIffBelowThreshold | tessera/db/enterprise_utils.py:50-77 | with overlapping calls, closed exactly below the threshold; a counted failure when not closed opens it |
| CircuitBreaker.StartsOnlyAfterTimeout | tessera/db/enterprise_utils.py:51-60 | a call starts exactly when the breaker is closed or more than the timeout has passed since the latest counted failure |
| CircuitBreaker.FailuresAccumulate | tessera/db/enterprise_utils.py:64-76 | the count is the number of failures since the last recovery, whatever succeeded in between |
| CircuitBreaker.TripsExactlyAtThreshold | tessera/db/enterprise_utils.py:70-76 | it has tripped exactly when those failures reach the threshold |
| CircuitBreaker.ProbeIff | tessera/db/enterprise_utils.py:51-76 | a call in flight on a half-open breaker is a probe exactly when no failure has been counted since it started |
| CircuitBreaker.ProbeIffStartedLater | tessera/db/enterprise_utils.py:51-76 | by the clock: exactly when it started after the latest counted failure |
| CircuitBreaker.OnlyProbesCloseIff | tessera/db/enterprise_utils.py:62-69 | in every reachable half-open state, every possible closer is a probe exactly when all calls in flight started after the latest counted failure |
| CircuitBreaker.StaleSuccessCloses | tessera/db/enterprise_utils.py:62-69 | a named call, started before the trip and no probe, closes the half-open breaker while the probe is still out |
| CircuitBreaker.CircuitBreaker.Enter | tessera/db/enterprise_utils.py:51-60 | the admission, and the move to half-open |
| CircuitBreaker.CircuitBreaker.OnSuccess | tessera/db/enterprise_utils.py:63-69 | closes and clears a half-open breaker only |
| CircuitBreaker.CircuitBreaker.OnFailure | tessera/db/enterprise_utils.py:70-76 | counts, stamps and opens at the threshold |
| Organizations.OrganizationManager.CreateOrganization | tessera/organizations/org_manager.py:132-179 | refusals, the slug fallback exactly when the slug is in use, the cap of each plan, and a new organization with its owner as only member |
| Prelude.SlugifyMeans | tessera/organizations/org_manager.py:92-95 | a slug is never empty, its hyphens stand alone between letters and digits, and those are the ones of the name, in order |
| Organizations.OrganizationManager.AddMember | tessera/organizations/org_manager.py:233-266 | each refusal in order; owners and cap kept |
| Organizations.OrganizationManager.RemoveMember | tessera/organizations/org_manager.py:268-278 | refused exactly for the last owner |
| Organizations.OrganizationManager.UpdateMemberRole | tessera/organizations/org_manager.py:280-301 | refused exactly for demoting the last owner |
| Organizations.OtherOwnerIff | tessera/organizations/org_manager.py:274-277 | more than one owner counted means another owner exists |
| Organizations.OrganizationManager.DeleteOrganization | tessera/db/memory.py:446-457 | removes the organization, its members and just its invitations |
| Organizations.OrganizationManager.SendInvitation | tessera/organizations/org_manager.py:334-392 | each refusal in order; at most one invitation per organization and address in any case |
| Organizations.OneInvitationPerAddress | tessera/organizations/org_manager.py:334-392 | no two stored invitations of an organization are for the same address, in any case |
| Organizations.OrganizationManager.FindByToken | tessera/db/memory.py:521-525 | finds the stored invitation with the token, if there is one |
| Organizations.OrganizationManager.AcceptFound | tessera/organizations/org_manager.py:443-482 | every outcome with what it leaves: refusals keep the invitation unless expired, then it is used up before the cap is looked at |
| Organizations.OrganizationManager.AcceptInvitation | tessera/organizations/org_manager.py:429-482 | a token succeeds at most once and is refused for ever after; the cap and the owners are kept |
| Organizations.OrganizationManager.DeclineInvitation | tessera/organizations/org_manager.py:484-489 | removes just the invitation with the token |
| LikeSearch.EscapedLikeIsContains | tessera/db/sql.py:677-679 | for every needle and text, the escaped pattern matches exactly when the text contains the needle |
| LikeSearch.EscapeInOnePass | tessera/db/sql.py:130-132 | the three replacements in this order are one single-pass escape |
| LikeSearch.LiteralConsumes | tessera/db/sql.py:130-132 | an escaped literal matches exactly itself |
| LikeSearch.SearchesAgreeIff | tessera/db/sql.py:671-679 | SQL and in-memory search agree on every term exactly when neither field holds a stored None |
| LikeSearch.EscapingNeeded | tessera/db/sql.py:130-132 | without the escape an underscore or a percent sign would find texts that do not contain it |

## Left out

- Network, HTTP, boto3, Redis, MongoDB and SQLAlchemy calls, the admin API, the CLI and the React kit.
- Token signing and validation: any issued token may be presented at any time; ids, jtis and tokens are fresh.
- Cryptographic strength of sha256, HMAC and JWT: hashing, key derivation and signing are arbitrary functions.
- Access-token and token-pair entries in the interleaved rotation: only the refresh ledger decides a claim; `TokenLedger` has all three.
- Two clocks, and time passing inside one call: each call has one clock reading, and readings never go back.
- MemoryCache.InMemoryCache.Incr: counter texts are an optional sign and ASCII digits; `int()` also takes blanks, underscores and other digits.
- BotProtection.BotProtectionManager.CheckRateLimit: the text written for the present time must read back as that time; risk scoring and CAPTCHA are not modelled.
- Srp.CognitoSrp.Respond: a text that is not hexadecimal or base64 raises; here decoding is total.
- Search and statistics over the audit log; metadata that is not JSON.
- DynamoCodec.DecodeEncode: floats are not modelled (their texts and rounding); nor is what the database itself does to sets (order, duplicates).
- DynamoUpdate.CompileUpdate: whether the condition holds is the database's business; nothing is promised when its names or values clash with generated ones. The keys of the updates are distinct, as in a dictionary.
- RoleManager.Manager.CreateRole: timestamps are not modelled; role ids are never issued twice.
- Organizations.OrganizationManager.AcceptInvitation: every stored invitation is pending, since nothing stores another status.
- Organizations.OrganizationManager.SendInvitation: the outcome of the invitation rate limit is a parameter; email delivery is not modelled.
- AuditQueue.AuditLogger.Flush: one call that nothing disturbs; calls that overlap are runs of the state machine (`UndisturbedFlush` connects the two).
- AuditQueue.AuditLogger.Log: the same.
- CircuitBreaker.OnlyProbesCloseIff: by the clock it needs a recovery timeout that is not negative; `ProbeIff` does not.
- Organization updates that rewrite the plan or the cap, which pass unchecked; the purge of expired invitations on listing; unknown role names.
- Cancellation during an audit save: a save commits its whole batch or raises.
- Unicode case folding and whitespace: ASCII only.
- Sessions, webhooks, SAML, API keys, magic links, MFA counters and OIDC login state: the same single-use, index and counter patterns again.
