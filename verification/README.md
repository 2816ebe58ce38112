# Verified model of sssd-oidc

sssd-oidc resolves cloud identities (SCIM 2.0) to POSIX users and groups for NSS and PAM. This project
models the parts of it whose correctness spans many calls and proves what they promise:

- **Allocation** (`Mapping`, `Probing`, `OrderIndependence`): `resolve_id` as linear probing over a
  configured 32-bit id range. The hash is any total function (a field of `IdRange`). `Table` is the
  assignment of ids to external ids; `Run` is any sequence of resolve-then-store steps and purges.
- **The cache** (`CacheModel`, `CacheHistory`, `Allocation`, `AllocationOrder`, `CacheStore`): the three
  SQLite tables as values, every statement as a function on them, and the cache object as a class with a
  ghost history of its statements; its tables are always `Replay` of that history, so a lemma about all
  histories is a lemma about all reachable caches. `Allocated` says that each store's id was resolved on
  the tables it was stored into, which the process-wide mutex guarantees within one process and which
  `ServiceFacade.Service.Valid` maintains.
- **The service** (`ServiceFacade`): SCIM first, cache second. SCIM replies and clock readings are inputs.
- **NSS** (`NssMemory`, `NssFill`, `NssEnum`, `InitGroups`): packing entries into the caller's byte buffer
  and reading them back as a C program does, the enumeration cursors, and the supplementary-group loop.
  Names are the UTF-8 bytes of the strings of the cache model; pointers are 8 bytes, least significant first.
- **Protocol loops** (`DeviceFlow`, `ScimClient`): the poll loop of RFC 8628, SCIM pagination and filter
  escaping of RFC 7644.

Where the code and its documentation disagree the model follows the code:

- src/mapping.rs:18 promises that a cached id keeps its mapping. A purge can break that:
  `Probing.PurgeMovesACachedId` is a concrete run, and `Probing.PurgeKeepsStableIff` says which purges keep
  the promise for a row: those whose deleted rows all lie further from its home slot than the row itself.
  `Allocation.StoredIdsAreStable` is the promise for as long as purges delete no row of the kind, which
  `ServiceFacade.OpenServiceIsStable` states for a service opened on an empty database.
- src/cache.rs:168 promises a collision-free gid, but src/service.rs:249-251 resolves a user's primary gid
  without storing a row for it. `ServiceFacade.SharedPrimaryGidIff` says exactly when two users of a listing
  get the same one; `ServiceFacade.TwoUsersShareAGid` is a concrete listing.
- README.md:69-71 promises identical ids on every server with the same range. `OrderIndependence.HostsAgreeIff`
  shows that this holds exactly when no two external ids share a home slot.
- src/mapping.rs:47 promises exhaustion only when every slot is occupied. With a range so large that the
  32-bit sum wraps, the slot before the home slot is never examined: `Mapping.HonestExhaustionIff` is the
  exact condition, `Mapping.ReportsFalseExhaustion` runs the loop on every range and id beyond it, and
  `Mapping.ReportsExhaustionWithAFreeSlot` on a concrete one.
- src/mapping.rs:5-6 promises ids inside the range: `Mapping.InRangeIff` is the exact condition, and
  `Mapping.LandsOnZero` a range whose second slot is the id 0, outside it.
- crates/nss_oidc/src/group.rs:144-158 aligns the offset of the pointer array, not its address, so `gr_mem` is
  aligned for a C program exactly when the caller's buffer is (`NssFill.FillGroupBuf`).

`purge_expired` and `store_group` are modelled with and without enforcement of the declared foreign-key
cascade (the flag `cascade`), because no statement of the repository turns it on or off.

## Model

| member | source | states |
|---|---|---|
| Mapping.ResolveId | src/mapping.rs:26-45 | the answer at the first probed slot that is free, ours or in error decides; all slots taken by others is exhaustion |
| Mapping.CandidateIsProbe | src/mapping.rs:35-37 | on a range that fits, the 32-bit candidates are the cyclic probe sequence from the home slot, inside the range |
| Mapping.CandidateFromHash | src/mapping.rs:26-37 | on a range that fits, slot k examined is the start of the range plus hash plus k modulo its size |
| Mapping.EachSlotProbedOnce | src/mapping.rs:36-37 | every id of the range is examined at exactly one offset |
| Mapping.NoStepWrapsIff | src/mapping.rs:13 | no 32-bit step of any probe wraps if and only if the size is at most 2^31 and the range ends within 2^32 |
| Mapping.ProbesDistinctIff | src/mapping.rs:36-37 | the loop examines no slot twice if and only if home slot plus size is at most 2^32 |
| Mapping.AllExaminedIff | src/mapping.rs:36-43 | the loop examines every slot of the range if and only if home slot plus size is at most 2^32 |
| Mapping.HonestExhaustionIff | src/mapping.rs:44-47 | exhaustion is reported only when every slot is occupied if and only if home slot plus size is at most 2^32 |
| Mapping.ReportsFalseExhaustion | src/mapping.rs:36-47 | whenever home slot plus size exceeds 2^32 the loop reports exhaustion although the slot before the home slot is free |
| Mapping.ReportsExhaustionWithAFreeSlot | src/mapping.rs:44-47 | on a concrete range and id the loop reports exhaustion while a slot is free |
| Probing.ResolveIsFirstFree | src/mapping.rs:36-43 | the resolved id is the one in-range id not held by others with only held slots before it |
| Probing.ResolveFromHash | src/mapping.rs:26-45 | the resolved id is the first slot from hash modulo size on, cyclically, that no row of another id holds |
| Probing.EmptyTableSlot | src/mapping.rs:8-14 | on an empty table an id gets the start of the range plus its hash modulo the size, inside the range |
| Probing.SameSlotIff | src/mapping.rs:8-14 | two ids, each alone in a table, get the same number if and only if their hashes differ by a multiple of the size |
| Probing.ExhaustedIff | src/mapping.rs:44 | resolution fails if and only if as many other rows lie in the range as it has slots |
| Probing.StableIff | src/mapping.rs:18-20 | re-resolving a stored id returns its id if and only if every slot from its home up to it is held |
| Probing.AssignKeeps | src/cache.rs:208-226 | resolve-then-store evicts nobody and keeps the table a partial injection into the range |
| Probing.RunKeepsValid | src/cache.rs:51-54 | every run of stores and purges keeps the table a partial injection into the range |
| Probing.RunIsStable | src/mapping.rs:18-20 | over every run whose purges delete nothing, stored ids stay and re-resolve to themselves |
| Probing.DistanceNeverGrows | src/mapping.rs:36-43 | with purges of other rows anywhere, a surviving row never moves further from its home slot |
| Probing.PurgeMovesACachedId | src/mapping.rs:18-20 | a purge makes a still cached id resolve to a different number |
| Probing.PurgeKeepsStableIff | src/cache.rs:367-384 | a row with an unbroken chain that a purge keeps still resolves to its id if and only if every deleted row lies further from its home slot than it does |
| Probing.UnsynchronisedStores | crates/nss_oidc/src/state.rs:20 | two resolutions before two stores: the second evicts the first if and only if both found the same slot |
| Probing.CollisionFree | src/mapping.rs:8-14 | with distinct home slots every run with purges gives each external id its hash slot |
| Probing.SameResolutionIff | src/cache.rs:168-178 | on one table with intact chains two ids resolve to the same number if and only if they are equal, or neither has a row and all slots from one home slot up to the other are held |
| OrderIndependence.StepsCommute | src/mapping.rs:36-43 | two adjacent stores may be swapped without changing held slots, stored ids and total distance |
| OrderIndependence.StoresAreOrderIndependent | src/mapping.rs:35-43 | any two orders hold the same numbers, at the same total distance unless ids outnumber slots |
| OrderIndependence.HostsAgreeIff | README.md:69-74 | hosts storing the same external ids in any order agree if and only if no two share a home slot |
| CacheStore.ResolveIn | src/cache.rs:163-205 | the probe loop over the owner lookup of a table is first-free resolution, or range exhaustion |
| CacheStore.Cache.ResolveUid | src/cache.rs:157-166 | first-free resolution of an external id among the cached uids, or range exhaustion |
| CacheStore.Cache.ResolveGid | src/cache.rs:169-178 | first-free resolution of an external id among the cached gids, or range exhaustion |
| CacheStore.Cache.StoreUser | src/cache.rs:208-226 | one replacing insert: the history grows by exactly this store |
| CacheStore.Cache.StoreGroup | src/cache.rs:289-308 | fails exactly on a repeated member name, with the row and the names before the repetition stored |
| CacheStore.Cache.InsertMembers | src/cache.rs:301-306 | the names before the first repetition are inserted, and a repetition is the only failure |
| CacheStore.Cache.PurgeExpired | src/cache.rs:367-384 | three deletions, each with its own clock reading, in this order |
| CacheStore.Cache.GetUserByUid | src/cache.rs:229-256 | the only live row with that uid, or nothing when there is none |
| CacheStore.Cache.GetUserByName | src/cache.rs:259-286 | some live row of that login, or nothing when there is none |
| CacheStore.Cache.GetGroupByGid | src/cache.rs:311-336 | the only live group with that gid, with each of its members once |
| CacheStore.Cache.GetGroupByName | src/cache.rs:339-364 | some live group of that name, with its members, or nothing when there is none |
| CacheStore.Cache.GetGroupMembers | src/cache.rs:421-431 | exactly the stored member names of one group, each once |
| CacheStore.Cache.GetGroupsForMember | src/cache.rs:390-418 | exactly the live groups listing the login, none repeated |
| CacheHistory.ReplayHasUniqueKeys | src/cache.rs:51-68 | in every reachable state external ids, uids and gids are unique |
| CacheHistory.RowIffSurvivingStore | src/cache.rs:208-226 | a user or group row is present if and only if a store wrote it and no later store or purge removed it |
| CacheHistory.OfflineUserIsFresh | src/cache.rs:259-263 | a login found in the cache was stored less than the ttl ago by the last store for its external id |
| CacheHistory.StoredUserReadsBack | src/cache.rs:208-256 | until an event removes its row, a stored uid leads to exactly that user, and after the ttl to nobody |
| CacheHistory.StoredGroupIntact | src/cache.rs:289-336 | until an event removes its row, a stored group is cached with exactly the members of that store, over every history |
| CacheHistory.StoredGroupReadsBack | src/cache.rs:289-336 | until an event removes its row, a stored gid leads to exactly that group and its members, and after the ttl to nothing |
| CacheHistory.StoredGroupFoundByName | src/cache.rs:339-343 | until an event removes its row, a stored group with its members is among those found by its name, and after the ttl is not |
| CacheHistory.FoundByNameIsNamed | src/cache.rs:339-364 | a group is found by a name if and only if it has that name and is the one group its gid leads to |
| CacheHistory.UserFoundByName | src/cache.rs:259-286 | a user is found by a login if and only if it has that login and is the one user its uid leads to |
| CacheHistory.OfflineGroupIsFresh | src/cache.rs:390-418 | a group found for a login was stored less than the ttl ago by a store that listed the login and that nothing has superseded |
| CacheHistory.StoreGroupKeepsOthers | src/cache.rs:289-308 | a group not replaced keeps its row and its members |
| CacheHistory.PurgeOrphansIff | src/cache.rs:367-384 | a purge leaves orphaned member rows if and only if nothing cascades and a group with members turned stale between two readings |
| CacheHistory.StoreOrphansIff | src/cache.rs:289-308 | a group store leaves orphaned member rows if and only if nothing cascades and it replaces another group with members |
| CacheHistory.CascadeLeavesNoOrphans | src/cache.rs:70-76 | with the cascade no history, whatever its clock, leaves a member row without its group |
| CacheHistory.MembershipAgrees | src/cache.rs:390-431 | a group is listed for a login if and only if looking its gid up returns it with that login as a member |
| CacheHistory.PurgesAreUnobservable | src/cache.rs:367-384 | leaving all purges out of any history changes no later ttl-respecting lookup, with or without the cascade |
| CacheHistory.WithoutPurgesKeepsStores | src/cache.rs:367-384 | leaving the purges out of a history leaves every store as often as it was |
| Allocation.TableIsRun | src/cache.rs:157-178 | the uids and the gids of a cache history are a run of the probing table |
| Allocation.ReachableTableValid | src/cache.rs:51-68 | in every reachable state uids and gids are unique and inside their ranges |
| Allocation.StoresEvictNobody | src/cache.rs:208-226 | no store removes or changes another user's row or another group's gid |
| Allocation.StoredIdsAreStable | src/mapping.rs:18-20 | from any cache with intact chains on, while purges delete no row of the kind, stored uids and gids stay and re-resolve to themselves |
| Allocation.ChainsIntact | src/mapping.rs:36-43 | histories whose purges deleted no row of the kind leave every probe chain unbroken |
| Allocation.StoredIdsDriftHome | src/mapping.rs:36-43 | with purges, a row never purged is never stored further from its home slot |
| AllocationOrder.HistoriesAreOrderIndependent | src/cache.rs:208-226 | two caches that stored the same external ids in any order, purges having deleted none, hold the same numbers at the same total distance |
| AllocationOrder.CollisionFreeHistories | src/mapping.rs:5-14 | without shared home slots every row of every history has its hash id |
| ServiceFacade.Service.constructor | src/service.rs:42-52 | opening the service purges once with the configured ttl |
| ServiceFacade.OpenService | crates/nss_oidc/src/state.rs:40-52 | a service on an empty database has been purged once, and that purge deleted nothing |
| ServiceFacade.OpenServiceIsStable | src/mapping.rs:18-20 | in a service opened on an empty database every uid and gid ever stored stays and re-resolves to itself |
| ServiceFacade.Service.ScimUserToModel | src/service.rs:236-267 | uid and primary gid are resolutions on the current tables, the status is inactive exactly for a reply that says so, a missing display name is empty; fails exactly when a resolution is exhausted |
| ServiceFacade.DisplaysInOrder | src/service.rs:278-282 | a group gets as many member names as members have a display, each preceded by those of the members before it |
| ServiceFacade.DeactivationSticks | src/service.rs:166-198 | once the last store for an external id said inactive, no offline lookup of any login returns that id as active |
| ServiceFacade.Service.ScimGroupToModel | src/service.rs:270-289 | gid is a resolution on the current tables; members are the displays present, in order |
| ServiceFacade.Service.LookupUserByName | src/service.rs:70-92 | a found user is resolved, stored and returned; otherwise a live cached row of that login |
| ServiceFacade.Service.LookupGroupByName | src/service.rs:107-125 | a found group is stored and returned, or stored in part on a repeated member; otherwise a live cached group |
| ServiceFacade.Service.CheckUserActive | src/service.rs:166-198 | with a user found, true if and only if both ids resolve and the reply does not say inactive, and the status and display name stored are those of the reply; otherwise true needs an unreachable server, the cached-status policy and a status stored less than the ttl ago as the last for its id; a found user is stored if and only if it resolves |
| ServiceFacade.Service.LookupGroupsForUser | src/service.rs:207-233 | online the resolution of every reported group, the user being stored even when a group fails; offline the gids of the live groups listing the login |
| ServiceFacade.Service.ResolveGroups | src/service.rs:216-224 | every reported group's resolution in order, or failure if and only if one does not resolve |
| ServiceFacade.Service.CachedGroupIds | src/service.rs:229-230 | exactly the gids of the live groups that list the login |
| ServiceFacade.Service.ListAllUsers | src/service.rs:137-147 | each listed user is converted on the tables left by those before it and stored, up to the first that does not resolve, which fails the call; with distinct external ids all are in the cache as returned and no two share a uid |
| ServiceFacade.Service.StoreListed | src/service.rs:140-144 | the users before the first that does not resolve are stored, in order, each as converted on the tables left by those before it |
| ServiceFacade.SharedPrimaryGidIff | src/service.rs:244-251 | after any history with intact chains, two users of one listing get the same primary gid if and only if their primary groups are equal, or neither is cached and all slots from one home slot up to the other are held |
| ServiceFacade.TwoUsersShareAGid | src/service.rs:244-251 | on an empty cache two users without groups and with the same home slot both get its gid |
| ServiceFacade.StoredUsersStay | src/service.rs:140-144 | users of distinct external ids stored one after the other all stay as stored, under distinct uids |
| ServiceFacade.GroupsAgreeOfflineIff | src/service.rs:207-233 | with chains intact, online and offline answers are the same gids if and only if the live groups listing the login are the reported ones |
| NssMemory.PointerRoundTrip | crates/nss_oidc/src/group.rs:158-169 | an 8-byte pointer reads back as the address written |
| NssMemory.PointerWeights | crates/nss_oidc/src/group.rs:158-169 | byte i of a pointer weighs 256 to the power i |
| NssMemory.StringArrayReadsBack | crates/e2e/tests/nss_ffi.rs:325-341 | the reader of a NULL-terminated pointer array recovers the packed strings in order |
| NssFill.WriteStr | crates/nss_oidc/src/passwd.rs:154-171 | the string with its NUL is written whole at the offset, or nothing changes |
| NssFill.FillPasswdBuf | crates/nss_oidc/src/passwd.rs:108-150 | succeeds if and only if the five strings fit; then all read back and every other byte is unchanged; otherwise ERANGE with the record untouched |
| NssFill.UserLosslessIff | crates/nss_oidc/src/passwd.rs:117-136 | what is read back is the user itself if and only if no string contains a NUL |
| NssFill.WritePointers | crates/nss_oidc/src/group.rs:158-169 | the pointer array is written at the offset and no other byte changes |
| NssFill.FillGroupBuf | crates/nss_oidc/src/group.rs:115-180 | succeeds if and only if strings, padding and pointers fit; then name, "x" and all members read back in order and every other byte is unchanged; otherwise ERANGE with the record untouched; the pointer array is aligned if and only if the caller's buffer is |
| NssFill.GroupLosslessIff | crates/nss_oidc/src/group.rs:124-142 | what is read back is the group itself if and only if no name contains a NUL |
| NssEnum.SnapshotUsers | crates/nss_oidc/src/ffi.rs:211-222 | each listed user is converted and stored on the tables the ones before it left, or skipped because it does not resolve on them |
| NssEnum.SnapshotGroups | crates/nss_oidc/src/ffi.rs:311-322 | likewise for groups; a group whose store fails on a repeated member is kept |
| NssEnum.SnapshotUidsDiffer | crates/nss_oidc/src/ffi.rs:211-222 | in a snapshot of distinct external ids all users are cached as listed and no two share a uid |
| NssEnum.GroupEnum.SetGrent | crates/nss_oidc/src/ffi.rs:290-329 | a listing is converted, stored and becomes the snapshot, at its first entry, each entry with the gid, name and members in order of its group; a failed listing changes nothing |
| NssEnum.GroupEnum.GetGrentR | crates/nss_oidc/src/ffi.rs:337-367 | the cursor advances exactly on success, with the entry at the cursor in the buffer; Unavail before any set call, NotFound past the end |
| NssEnum.UserEnum.SetPwent | crates/nss_oidc/src/ffi.rs:190-229 | a listing is converted, stored and becomes the snapshot, at its first entry, each entry with the ids and strings of its user; a failed listing changes nothing |
| NssEnum.EnumeratedUserIsFound | crates/nss_oidc/src/ffi.rs:211-222 | each user of a snapshot of distinct external ids is, until the ttl has passed, the one user its uid leads to |
| NssEnum.NextUserIsKnown | crates/nss_oidc/src/passwd.rs:108-150 | what the next get call delivers has the ids of the user that looking up the delivered uid returns, and the strings read through its pointers are that user's |
| NssEnum.UserEnum.GetPwentR | crates/nss_oidc/src/ffi.rs:238-267 | the cursor advances exactly on success, with the entry at the cursor in the buffer; Unavail before any set call, NotFound past the end |
| NssEnum.EnumerationIsLossless | crates/nss_oidc/src/ffi.rs:357-366 | for any buffer sizes the successes are the first entries of the snapshot, in order, each once |
| NssEnum.DrainDeliversAll | crates/nss_oidc/src/ffi.rs:357-366 | a caller that enlarges its buffer on TryAgain gets every entry and then NotFound |
| NssEnum.ReadAllGroups | crates/nss_oidc/src/ffi.rs:337-367 | a C program doubling its buffer on TryAgain reads exactly the snapshot of groups, in order |
| InitGroups.InitgroupsDyn | crates/nss_oidc/src/ffi.rs:144-180 | the array and count after the nested loops, and success if and only if every eligible gid was taken |
| InitGroups.CallsResume | crates/nss_oidc/src/ffi.rs:165-174 | a call stopped for lack of room and repeated with more ends like a single call with more room |
| InitGroups.AppendsFirstOccurrences | crates/nss_oidc/src/ffi.rs:148-174 | the old entries followed by as many first occurrences of eligible gids as fit |
| InitGroups.FirstOccurrencesExact | crates/nss_oidc/src/ffi.rs:148-163 | the added gids are exactly those neither primary nor present, none twice |
| InitGroups.FirstOccurrencesInOrder | crates/nss_oidc/src/ffi.rs:148-174 | the added gids come in the order in which they first occur |
| DeviceFlow.AuthenticateDeviceFlow | src/oidc.rs:257-304 | for every environment the loop terminates, and in the trace of polls it sent each comes at least the interval asked for, and at least five seconds, plus five seconds for each slow_down received, after the one before; the trace ends before the deadline, goes on only after waiting answers and decides the result |
| DeviceFlow.OutcomeIsUnique | src/oidc.rs:275-303 | number of polls and outcome are determined by the environment |
| DeviceFlow.SucceedsIff | src/oidc.rs:275-303 | the flow succeeds if and only if a poll before the deadline brings the token after nothing but waiting answers |
| DeviceFlow.PollSpacing | src/oidc.rs:269-297 | in the trace of any run each poll comes at least the interval asked for, and at least five seconds, plus five seconds for each slow_down in the trace so far, after the one before |
| DeviceFlow.PollTimesExact | src/oidc.rs:269-297 | when sleeps and polls take no extra time, each poll comes exactly the larger of the two, plus those five seconds, after the one before |
| DeviceFlow.LastAnswerDecides | src/oidc.rs:283-302 | a token or a refusal is the last poll of the trace and is passed on as it came, and a trace without either ends as expired |
| DeviceFlow.GivenUpAtDeadline | src/oidc.rs:278-281 | the flow is given up only when the next such poll would come at or after the deadline |
| DeviceFlow.PollCountBounds | src/oidc.rs:275-303 | n polls need 5n seconds of lifetime, and 5n(n+1)/2 when all before the last were slow_down |
| DeviceFlow.IntervalStaysSmall | src/oidc.rs:291-297 | the interval stays below the lifetime plus five seconds |
| ScimClient.PaginateList | src/scim.rs:233-280 | the loop's result after at most a thousand requests, each starting right after what was collected: against a server of a fixed list a prefix of it, all of it if and only if a thousand filled pages hold it, and an error if and only if the listing gets as far as a request that fails |
| ScimClient.ListingIsPrefix | src/scim.rs:243-279 | against a server of a fixed list, whatever the limit, the result is a prefix of it, complete if and only if the loop saw the end |
| ScimClient.FullPagesCompleteIff | src/scim.rs:237-279 | against a server that fills pages up to any cap the whole list is returned if and only if as many such pages as the limit allows hold it |
| ScimClient.FailureFailsIff | src/scim.rs:255-257 | a request that fails fails the listing, whatever was collected, if and only if the listing gets that far |
| ScimClient.EscapeFilterValue | src/scim.rs:90-100 | the loop computes the escaped value |
| ScimClient.EscapedLength | src/scim.rs:90-100 | escaping adds one character for each quote and each backslash |
| ScimClient.EscapedUnchangedIff | src/scim.rs:96 | a value is its own escaped form if and only if it has neither a quote nor a backslash |
| ScimClient.EscapingRoundTrip | src/scim.rs:130-131 | a backslash-aware reader stops at the closing quote and recovers the value |
| ScimClient.EscapingInjective | src/scim.rs:90-100 | different values have different escaped forms |

## Left out

- HTTP, JSON, TLS and the token and device endpoints' wire formats: replies are inputs of the methods.
- The murmur3 algorithm: any total 32-bit hash is allowed.
- The SQLite engine: statements are atomic functions on the tables; storage errors, its 64-bit integers and WAL mode are not modelled.
- A wall clock stepping backwards: the theorems about purges assume nondecreasing clock readings (`Timed`).
- Interleaving of several processes on one database file: `Allocated` assumes resolve and store are not separated; `Probing.UnsynchronisedStores` says what happens when they are.
- Mapping.Candidate: models the wrapping arithmetic of a release build; a debug build panics instead. A range of size zero, which panics in both, is excluded.
- Probing.Resolve: is defined for ranges on which nothing wraps; for others only the probe sequence itself is characterised.
- ServiceFacade.MAX_NAME_LEN: compares the number of characters, which is the number of bytes when a name is given as its UTF-8 bytes.
- `lookup_user_by_uid`, `lookup_group_by_gid` and `list_all_groups`: one cache call each, or the loop of `ListAllUsers` over groups.
- NssEnum.UserEntryOf: takes the UTF-8 encoding of a string as a parameter.
- The users' counterpart of `NssEnum.ReadAllGroups`.
- The state, name-conversion and lock failures at the head of the NSS entry points: flat result codes.
- Linux and 64-bit are assumed for ERANGE and the pointer size.
- ID-token validation, OIDC discovery, PAM entry points, configuration loading, permission checks and logging.
- Changing the id range between runs: all statements are for one fixed configuration.
