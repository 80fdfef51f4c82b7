# Air Cover: a verified model of the sub-request system

Air Cover lets radio hosts post requests for a substitute, take and release each other's requests, and delete them. This
project models the parts of it that hold state or loop, and proves what they are relied on for.

| module | models |
|---|---|
| Basics, Domain, Strconv, Strings, Sorting, UserTable | shared values, Go's decimal and string operations, a sorted slice, lookups of users |
| Authorization, Casbin | the built-in rules, the policy table that answers for them, and its seeding |
| SubRequestStore, SubRequestService | the sub_requests table one SQL statement at a time, its repository, and the use cases for one caller |
| SubRequestProtocol, SubRequestSafety, SubRequestReports | any number of clients whose steps interleave, what holds in every run, and which errors clients are told |
| Catalog, CatalogProtocol | the page-chasing fetch and the cache object; readers, cold fetchers and refreshes interleaved |
| NextPage, LinkHeader | the search for the next page in a JSON body and in a Link header |
| Duration | the printed duration of a request |
| Auth, AuthProtocol | magic links and sessions for one caller; logins, verifications, authentications and logouts interleaved |
| Notifier | the bounded queue with one worker, as a state machine and as an object |
| Admin | the users table, its commands, and the order of the listing |
| Dashboard, DashboardAgreement | the dashboard and the detail page, and when they say the same |

Objects of the source that change in place are classes here, and each method is proved against a function on the object's
state. Where many callers are active at once, the state is a value, `Next` performs one atomic step (one SQL statement, one
critical section, one turn of the worker), and `Run` folds `Next` over an arbitrary list of steps; a theorem about `Run` holds
for every interleaving. Clients keep the snapshots they read, however stale these become. Clock readings are arbitrary
integers, so clocks may differ and go backwards. In the sub-request protocol a statement may be lost, or take effect without
its client learning of it.

Six expectations turn out not to hold of the code as it is. Each is stated with an input that shows it and with the exact
condition under which it does hold:

- Dashboard and detail page may give a request different titles, when its show id stands for several listed shows
  (`DashboardAgreement.PagesDisagree`, `DashboardAgreement.DashboardAgreesWithDetailIff`). Both take the last show of the
  id, and only the dashboard sorts first; a map built from any order whatever is the subject of
  `Dashboard.TitleDependsOnOrder` and `Dashboard.TitlesIgnoreOrderIff`.
- Logout does not stop an authentication that has found its session and not yet loaded its user
  (`AuthProtocol.LogoutMissesAnAuthentication`, `AuthProtocol.LogoutStopsSessionIff`).
- The cached list need not be the most recently started fetch (`CatalogProtocol.SlowColdFetchOverwritesRefresh`,
  `CatalogProtocol.StoreKeepsNewestIff`, `CatalogProtocol.NewestThroughoutIff`).
- A racing untake is told conflict, which an untake done at once never is (`SubRequestReports.UntakeRace`,
  `SubRequestReports.ErrorsAreAtomicIff`).
- A stored request may start before its creation time (`SubRequestReports.StoredAfterItsStart`,
  `SubRequestService.StartsAfterCreationIff`).
- Stopping a notifier whose worker was never started drops what was accepted (`Notifier.StopDropsWithoutStart`,
  `Notifier.StopDrainsIffStarted`).

The comparator of the admin listing would be no order with a third role (`Admin.ThirdRoleBreaksOrder`,
`Admin.OrderNeedsTwoRoles`); none of the application's commands ever stores one (`Admin.RolesStayValid`), so the listing is
always sorted as intended.

## Model

| member | source | states |
|---|---|---|
| SubRequestSafety.NeverCoveredByPoster | internal/app/subrequests/service.go:303-339 | in every run no stored request is covered by its own poster, and every stored request has a positive show id, ends after it starts and keeps its notes within the limit |
| SubRequestSafety.WritesWereAuthorized | internal/app/subrequests/service.go:289-339 | in every run each delete that took effect was by the poster of the request as created or by a viewer authenticated as admin, and each take by somebody else than the poster, although both were authorized on a stale snapshot |
| SubRequestSafety.TakesAndUntakesAlternate | internal/adapters/outbound/sqlite/subrequest_repository.go:86-128 | in every run the takes and untakes of one request strictly alternate, each untake is by the user of the take just before it, takes minus untakes is 0 while the request is open and 1 while it is filled, and then the last taker holds it |
| SubRequestSafety.OneWinnerBetweenUntakes | internal/adapters/outbound/sqlite/dbgen/subrequests.sql.gen.go:172-188 | between two takes of one request that took effect, the first taker released it, so of many racing takes one wins |
| SubRequestSafety.IdsAreNeverReused | internal/adapters/outbound/sqlite/schema.gen.sql:38-50 | ids are given out in ascending order, a creation is the first event of its id, and nothing happens to an id after its deletion |
| SubRequestSafety.StoreIsCreatedMinusDeleted | internal/adapters/outbound/sqlite/subrequest_repository.go:14-84 | the stored ids are exactly those created and not deleted, and each row keeps the owner, show, times, notes and creation time it was created with |
| SubRequestSafety.ReportsAreTruthful | internal/app/subrequests/service.go:222-339 | a client told of success had exactly one effect, the one it asked for; one told of any other error than a storage error had none; nobody has two |
| SubRequestSafety.StaleWriteIsAtomic | internal/app/subrequests/service.go:289-339 | whenever the write of a take, untake or delete changes the table, the whole command done at once on the table of that moment would have succeeded with the same table |
| SubRequestSafety.UndisturbedClientExecutes | internal/app/subrequests/service.go:222-339 | from any reachable state, a client whose steps nobody interleaves with leaves the table and the result the sequential command gives |
| SubRequestReports.ErrorsAreAtomicIff | internal/app/subrequests/service.go:289-339 | in every run, an error a client is told, other than a storage error, is what its command done at once gives at some moment of the client's run, exactly unless it is an untake told conflict; done at once that untake gives conflict at no moment and forbidden at some |
| SubRequestReports.UntakeRace | internal/adapters/outbound/sqlite/subrequest_repository.go:108-128 | a run in which the holder untakes twice at once and the second untake is told conflict |
| SubRequestReports.StoredAfterItsStart | internal/app/subrequests/service.go:222-287 | a run that stores a request whose start is before its creation time |
| SubRequestProtocol.FaultsAreStorageErrors | internal/adapters/outbound/sqlite/subrequest_repository.go:71-128 | a failed read or re-read and a lost write leave the table alone, an unconfirmed write is made, and the client is told a storage error |
| SubRequestProtocol.EffectIsLegal | internal/app/subrequests/service.go:303-339 | a write that affects a row fits the live history of that row, whatever snapshot it was authorized on |
| SubRequestProtocol.NextKeepsInv | internal/adapters/outbound/sqlite/subrequest_repository.go:71-128 | every step keeps the inductive invariant: rows agree with the history of their id, owners never change, snapshots have the live owner |
| SubRequestProtocol.RunKeepsInv | internal/adapters/outbound/sqlite/subrequest_repository.go:14-128 | the invariant holds after any list of steps from the empty table |
| SubRequestService.ApplyMeaning | internal/app/subrequests/service.go:303-339 | exactly when a take or an untake succeeds, that it then changes only the taker and the update time of that row, and which error it gives otherwise, with the table as it was |
| SubRequestService.DeleteMeaning | internal/app/subrequests/service.go:289-301 | a delete succeeds exactly for a stored request and its poster or an admin, and removes that row only; otherwise not-found or forbidden |
| SubRequestService.CreateMeaning | internal/app/subrequests/service.go:222-287 | exactly when a creation succeeds, on the clock reading of the validation, and the one row it adds, stamped with the later reading; a catalog error exactly if the catalog fails for an input that is valid otherwise, and in all other failures invalid; a failure changes nothing |
| SubRequestService.StartsAfterCreationIff | internal/app/subrequests/service.go:222-287 | a request that is stored starts after its creation time exactly if the second clock reading is before the start; the first always is |
| SubRequestService.CapabilitiesExact | internal/app/subrequests/service.go:345-370 | under any policy table can-take and can-delete are shown exactly when the command issued on the same state would succeed; can-untake is so exactly if the table lets nobody but the taker untake the request, which a table with the seeded rows does |
| SubRequestService.SeededTableExecutes | internal/adapters/outbound/authorization/casbin/authorizer.go:64-94 | every command has the same result and table under a policy table with the seeded rows as under the built-in rules |
| SubRequestService.Service.Create | internal/app/subrequests/service.go:222-242 | changes the repository and returns as the sequential command does under the service's authorizer |
| SubRequestService.Service.Delete | internal/app/subrequests/service.go:289-301 | the same for deletion, under the built-in rules or any policy table |
| SubRequestService.Service.ApplyAction | internal/app/subrequests/service.go:303-339 | the same for take and untake, under the built-in rules or any policy table |
| SubRequestStore.Repository.CreateSubRequest | internal/adapters/outbound/sqlite/subrequest_repository.go:14-34 | adds the row under the next id, which it returns and which is then used up |
| SubRequestStore.Repository.GetSubRequestByID | internal/adapters/outbound/sqlite/subrequest_repository.go:49-58 | gives the stored row, or not-found exactly when there is none |
| SubRequestStore.Repository.DeleteSubRequest | internal/adapters/outbound/sqlite/subrequest_repository.go:71-84 | removes that row only, and reports not-found exactly when there was none |
| SubRequestStore.Repository.ExecTake | internal/adapters/outbound/sqlite/dbgen/subrequests.sql.gen.go:172-184 | the conditional update: only an open row is affected, and only its taker and update time |
| SubRequestStore.Repository.ExecUntake | internal/adapters/outbound/sqlite/dbgen/subrequests.sql.gen.go:186-198 | the conditional update: only a row this user holds is affected |
| SubRequestStore.Repository.TakeSubRequest | internal/adapters/outbound/sqlite/subrequest_repository.go:86-106 | takes an open row for the user; conflict exactly if it is filled, not-found exactly if it is gone, and then nothing changes |
| SubRequestStore.Repository.UntakeSubRequest | internal/adapters/outbound/sqlite/subrequest_repository.go:108-128 | releases a row exactly if this user holds it; conflict for any other stored row, not-found if it is gone, and then nothing changes |
| Authorization.RulesOnEntities | internal/app/authorization/authorization.go:52-107 | who may delete, take and untake a request, update a user and administer, in terms of the stored request and the user, through the resources the application builds |
| Authorization.UnknownActionIsRefused | internal/app/authorization/authorization.go:104-106 | an action no rule is about is refused to everybody |
| Casbin.BaselineRowMatchesRule | internal/adapters/outbound/authorization/casbin/authorizer.go:86-168 | each baseline row stands under its action's own resource type and decides there exactly as the built-in rule |
| Casbin.BaselineAsStored | internal/adapters/outbound/authorization/casbin/authorizer.go:86-94 | the seven rows in the texts in which they are stored |
| Casbin.UnknownRuleMatchesNothing | internal/adapters/outbound/authorization/casbin/authorizer.go:145-147 | a stored row with a rule unknown to the program never matches |
| Casbin.TableDecides | internal/adapters/outbound/authorization/casbin/authorizer.go:64-108 | with a policy table an action is allowed exactly if some row names it, the type of the resource and a rule that holds; an empty table refuses everything |
| Casbin.SeededTableExact | internal/adapters/outbound/authorization/casbin/authorizer.go:75-168 | for every subject, action and resource the seeded table allows exactly what the built-in rules allow on the action's own resource type |
| Casbin.PartialTableIsSound | internal/adapters/outbound/authorization/casbin/authorizer.go:86-168 | a table drawn from the baseline never allows what the built-in rules refuse |
| Casbin.TableAgreesOnApplicationResources | internal/app/authorization/authorization.go:52-107 | on the resources the application builds for its actions, table and built-in rules are equal |
| Casbin.SeedingDecisions | internal/adapters/outbound/authorization/casbin/authorizer.go:75-94 | seeding twice is seeding once; seeding adds exactly the baseline's decisions to any table; and a table drawn from the baseline ends with exactly those |
| Casbin.DistinctRowsGrow | internal/adapters/outbound/authorization/casbin/authorizer.go:75-84 | the table in use lists rows in the order of first occurrence: further rows only add at its end |
| Casbin.Enforcer.LoadPolicy | internal/adapters/outbound/authorization/casbin/authorizer.go:77-79 | the table in use becomes the stored rows, each once, in order of first occurrence |
| Casbin.Enforcer.AddPoliciesEx | internal/adapters/outbound/authorization/casbin/authorizer.go:33-36 | adds the rows not in the table yet, each once and in order, and drops none |
| Casbin.Enforcer.SeedBaselinePolicy | internal/adapters/outbound/authorization/casbin/authorizer.go:75-84 | the stored table and the one in use become the old stored rows with the baseline added, each row once |
| Catalog.FetchExact | internal/adapters/outbound/spinitron/catalog.go:175-196 | for any source, a fetch succeeds exactly when all calls succeed and the chain from page 1 ends within 100 pages; it then returns those pages' items in order with one call a page; a longer chain is an error |
| Catalog.FailedCallIsReported | internal/adapters/outbound/spinitron/catalog.go:184-187 | a fetch one of whose calls fails stops there and returns that call's error |
| Catalog.SuccessVisitsNoPageTwice | internal/adapters/outbound/spinitron/catalog.go:178-194 | with a source that answers a page always alike, a fetch that succeeds asked for no page twice, so a cycle of pages is an error |
| Catalog.FetchItems | internal/adapters/outbound/spinitron/catalog.go:175-219 | the loop returns what the recursive specification gives, makes at most 100 calls, and exactly the calls of the specification |
| Catalog.ItemCatalog.CloneItems | internal/adapters/outbound/spinitron/catalog.go:235-251 | a new list with the same items, and nil for nil |
| Catalog.ItemCatalog.CachedItems | internal/adapters/outbound/spinitron/catalog.go:103-117 | a loaded cache answers with a copy of its list; the refreshing flag is set exactly if the value has expired and no refresh is running |
| Catalog.ItemCatalog.StoreItems | internal/adapters/outbound/spinitron/catalog.go:159-165 | stores a copy of the list that expires one TTL later, and leaves the refreshing flag alone |
| Catalog.ItemCatalog.FinishRefresh | internal/adapters/outbound/spinitron/catalog.go:135-145 | a successful refresh is stored, a failed one leaves value and expiry, and either clears the flag |
| Catalog.ItemCatalog.ListItems | internal/adapters/outbound/spinitron/catalog.go:62-77 | a caller gets the cached list, or a fetched one that is then stored, or the fetch's error with the cache unchanged; the list is new and not the cache's own, and the cache keeps its own list or takes a new one |
| Catalog.HandOut | internal/adapters/outbound/spinitron/catalog.go:62-165 | over any sequence of requests, ends of refreshes, and writes by callers into lists they were given, every answered request gets a list of its own, which holds the cache's items of then and afterwards only what was written into it; none is the cache's, and the cache is as if nobody had written |
| CatalogProtocol.RefreshFlagIsExact | internal/adapters/outbound/spinitron/catalog.go:103-145 | in every run the refreshing flag is set exactly while a background refresh is in flight, and there are never two |
| CatalogProtocol.CacheIsLastCompleteFetch | internal/adapters/outbound/spinitron/catalog.go:135-165 | in every run the cached list is the full result of a successful chain of pages, that of the last fetch stored, and expires one TTL after it was stored |
| CatalogProtocol.QuietReadIsFresh | internal/adapters/outbound/spinitron/catalog.go:103-117 | a read that neither starts nor overlaps a refresh returns the last list stored, less than one TTL ago |
| CatalogProtocol.ReadStartsFetchIff | internal/adapters/outbound/spinitron/catalog.go:103-117 | in every run a read fetches while nothing has been stored, starts a refresh exactly when the list is at least one TTL old and no refresh is in flight, and otherwise starts nothing; it changes no value |
| CatalogProtocol.OnlyASuccessfulCommitChangesTheValue | internal/adapters/outbound/spinitron/catalog.go:135-165 | no step unloads the cache, and only the end of a successful fetch changes value or expiry; a failed refresh changes neither |
| CatalogProtocol.LoadedNeverReverts | internal/adapters/outbound/spinitron/catalog.go:107-116 | once loaded the cache stays loaded in every continuation of the run |
| CatalogProtocol.SlowColdFetchOverwritesRefresh | internal/adapters/outbound/spinitron/catalog.go:71-76 | a run in which the oldest fetch is stored over a newer refresh |
| CatalogProtocol.StoreKeepsNewestIff | internal/adapters/outbound/spinitron/catalog.go:71-165 | while the most recently started of the stored fetches is cached, a store keeps it so exactly if it is the first, is by a refresh, or is by a cold fetch that started after the fetch whose list it replaces, which is known before the store |
| CatalogProtocol.NewestThroughoutIff | internal/adapters/outbound/spinitron/catalog.go:62-165 | the newest list is cached after every step of a run exactly if every store of the run met that condition |
| CatalogProtocol.RunKeepsInv | internal/adapters/outbound/spinitron/catalog.go:103-165 | in every run all cold fetches start before all refreshes, only the last fetch started can be a refresh in flight, and every store is of a finished, successful fetch |
| NextPage.SearchFindsFirst | internal/adapters/outbound/spinitron/spinitron.go:302-337 | on any JSON value the search ends; it finds none exactly if no path through recognised keys and array elements reaches an accepted leaf, and otherwise the positive page of the first such path in key and element order |
| NextPage.ObjectKeysInOrder | internal/adapters/outbound/spinitron/spinitron.go:315-327 | an object's page is the first found under next, next_page, page, href and url, in this order |
| NextPage.ArrayElementsInOrder | internal/adapters/outbound/spinitron/spinitron.go:328-333 | an array's page is that of its first element in which one is found, and none exactly if no element has one |
| NextPage.LeavesDecide | internal/adapters/outbound/spinitron/spinitron.go:303-314 | a number and a text carry the page they say, null and booleans none |
| NextPage.NumberIsCutOff | internal/adapters/outbound/spinitron/spinitron.go:306-310 | a number is a page exactly from 1 on, below 2^63, and the page is its integer part |
| NextPage.NextPageIsFirstCandidate | internal/adapters/outbound/spinitron/spinitron.go:251-292 | the next page is the first accepted leaf of the first of the six places that has one; the Link header decides exactly when none has |
| NextPage.BarrenIffNotFound | internal/adapters/outbound/spinitron/spinitron.go:302-337 | a value yields no page exactly when no path in it leads to an accepted leaf |
| NextPage.PageTextRoundTrip | internal/adapters/outbound/spinitron/spinitron.go:339-362 | a positive page number written in decimal is read back, alone, or as the page value of any URI that holds a character that is no digit after its first |
| NextPage.PageStringExact | internal/adapters/outbound/spinitron/spinitron.go:339-362 | a string carries page n exactly if, without the space around it, it is written as the positive number n, or is no positive number but parses as a URI whose page value is written as n; in every other case it carries none |
| Strings.TrimSpaceParts | internal/adapters/outbound/spinitron/spinitron.go:340-340 | trimming takes off all the space at either end and nothing else |
| Strings.SpaceCharacters | internal/adapters/outbound/spinitron/spinitron.go:340-340 | the characters trimmed are those of Unicode white space, one by one |
| LinkHeader.LinkHeaderRoundTrip | internal/adapters/outbound/spinitron/spinitron.go:364-387 | printing any list of such links (section 3 of RFC 8288) and parsing the header gives the page of the first rel="next" link whose target carries a positive page, and none if there is none |
| LinkHeader.HeaderExact | internal/adapters/outbound/spinitron/spinitron.go:364-387 | any header whatever: cut at its commas, the result is the page of the first part that carries one, and none exactly if no part does |
| LinkHeader.PartPageExact | internal/adapters/outbound/spinitron/spinitron.go:370-384 | a part carries a page exactly if, without the space around it, it holds rel="next" and a non-empty target between its first angle brackets that carries the page |
| LinkHeader.PrintedRelation | internal/adapters/outbound/spinitron/spinitron.go:372-374 | the text rel="next" occurs in a printed link exactly when its relation is next, wherever in the link it might stand |
| LinkHeader.PartOfPrintedLink | internal/adapters/outbound/spinitron/spinitron.go:370-384 | one printed link, with or without a space before it, yields the page of its target exactly if it is related as next |
| Strconv.AtoiItoa | internal/app/subrequests/service.go:454-457 | decimal text of any 64-bit integer is read back as that integer |
| Strconv.AtoiExact | internal/app/subrequests/service.go:454-457 | a text is read as n exactly if it is an optional sign, any zeros and the decimal of n, and n fits 64 bits; so every other text is refused |
| Strconv.OtherTextIsNoNumber | internal/adapters/outbound/spinitron/spinitron.go:345-361 | text with a character that is neither a digit nor a leading sign is no number |
| Strconv.NatToStringIsDecimal | internal/adapters/inbound/presenter/presenter.go:88-98 | a decimal holds only digits and starts with a zero only for zero |
| Duration.ComputedHoursAreClose | internal/adapters/inbound/presenter/presenter.go:92-92 | over the whole duration range, however the two floating-point operations round, the hours of a whole number of minutes are within a sixth of a hundredth of the exact value |
| Duration.HundredthsAreExact | internal/adapters/inbound/presenter/presenter.go:92-93 | a whole number of minutes is never a rounding tie: any figure that close rounds to the same hundredths, from which the minutes are recovered |
| Duration.TrimmingKeepsTheValue | internal/adapters/inbound/presenter/presenter.go:93-96 | removing two trailing zeros and a bare point keeps the printed value |
| Duration.DurationRoundTrip | internal/adapters/inbound/presenter/presenter.go:88-98 | the minutes are recovered from the printed text, for every whole number of minutes in the duration range |
| Duration.DurationText | internal/adapters/inbound/presenter/presenter.go:88-98 | the text itself for every whole number of minutes: under an hour the decimal of the minutes, after a minus sign if negative, and " min"; from an hour on the whole hours in decimal without sign or leading zero, then nothing, or a point and one or two digits of which the last is not zero, giving the nearest hundredth, and " hours" |
| Duration.SecondsAreCut | internal/adapters/inbound/presenter/presenter.go:89-91 | durations of less than an hour, either way, print the whole minutes with the rest cut off toward zero |
| Duration.HoursText | internal/adapters/inbound/presenter/presenter.go:92-97 | every duration of an hour or more, to the nanosecond, prints the computed hours to the hundredth: a decimal without leading zero, a fraction without trailing zeros, " hours" |
| Duration.RoundsToNearest | internal/adapters/inbound/presenter/presenter.go:93-93 | the two-decimal rounding is to a nearest hundredth, and to the even one of two equally near |
| Duration.DurationsPrintApart | internal/adapters/inbound/presenter/presenter.go:88-98 | different whole numbers of minutes never print alike |
| Auth.LinksLeft | internal/adapters/outbound/sqlite/dbgen/auth.sql.gen.go:74-78 | the DELETE removes exactly the unexpired links with that hash |
| Auth.FirstUsable | internal/adapters/outbound/sqlite/dbgen/auth.sql.gen.go:74-96 | the row returned is an unexpired link with that hash, and none exactly if there is no such link |
| Auth.FindSession | internal/adapters/outbound/sqlite/dbgen/auth.sql.gen.go:58-72 | a stored session with that hash, and none exactly if there is no such session |
| Auth.SessionsLeft | internal/adapters/outbound/sqlite/dbgen/auth.sql.gen.go:49-56 | logout's DELETE removes exactly that user's sessions |
| Auth.Service.RequestLogin | internal/app/auth/service.go:84-111 | an enabled user gets a stored link that lasts 15 minutes; an unknown one an error; a disabled one neither; a link that cannot be sent stays stored |
| Auth.Service.VerifyMagicLink | internal/app/auth/service.go:113-134 | an unexpired link is removed and gives its user a session of 24 hours; it is removed even if the session cannot be stored |
| Auth.Service.Logout | internal/app/auth/service.go:136-138 | removes that user's sessions and nothing else; like every method here it keeps token hashes and user ids unique |
| Auth.Service.AuthenticateSession | internal/app/auth/service.go:140-153 | succeeds exactly when some stored session has the token, has not expired and belongs to an enabled user, and returns that user's row; invalid exactly for an expired session, forbidden exactly for a disabled user, and otherwise not found |
| AuthProtocol.AuthenticationProvenance | internal/app/auth/service.go:84-153 | in every run whoever is authenticated at time t had requested a link while enabled, strictly later than t minus 24 hours 15 minutes, and is returned as the enabled row that the users table holds when the authentication completes |
| AuthProtocol.AuthenticationReturnsTheLiveUser | internal/app/auth/service.go:140-153 | in every run each recorded authentication has a step that completed it, and in the state before that step the users table holds the returned user as an enabled row with that email and role |
| AuthProtocol.SessionsComeFromOwnLinks | internal/app/auth/service.go:113-134 | in every run each stored session was opened with a link of its user that was consumed before it expired, and no two sessions ever opened came from the same link |
| AuthProtocol.LinkIsUsedOnce | internal/adapters/outbound/sqlite/auth_repository.go:55-68 | a link once consumed is not usable in any later state at any clock reading, however many verifications race and even if its session was not stored |
| AuthProtocol.LinkLostWithoutSession | internal/app/auth/service.go:113-134 | a run in which a link is consumed and storing its session fails, so that neither is left |
| AuthProtocol.LoginWorksExactlyInTime | internal/app/auth/service.go:84-153 | from any reachable state, a login that nobody disturbs, from the email to the session, the users table changing in any way before the last step, is authenticated exactly when the email was an enabled user's, the link is used strictly within 15 minutes, the session presented within 24 hours inclusively, and the user's row then enabled; and it is authenticated as that row |
| AuthProtocol.LogoutIsFinal | internal/app/auth/service.go:136-153 | no session a user had before logging out is found by a lookup in any later state |
| AuthProtocol.AuthenticatedAfterLogout | internal/app/auth/service.go:136-153 | in every continuation of a logout, whatever is authenticated after it with a session its user had before comes from an authentication that had found that session before the logout, and carries the clock reading of then |
| AuthProtocol.LogoutStopsSessionIff | internal/app/auth/service.go:136-153 | a logout keeps a session its user has from ever being authenticated again, over all continuations, exactly if no authentication with that session is between its two look-ups at that moment |
| AuthProtocol.LogoutMissesAnAuthentication | internal/app/auth/service.go:140-153 | a run in which a user logs in, presents the session and logs out, and is authenticated after the logout |
| AuthProtocol.LogoutSparesOthers | internal/adapters/outbound/sqlite/auth_repository.go:79-96 | lookups of other users' sessions give after a logout exactly what they gave before |
| AuthProtocol.AuthenticationInFlightCompletes | internal/app/auth/service.go:140-153 | in any continuation of a logout, an authentication that found its session before it, continued while its user is enabled, is recorded with the live row of that user |
| AuthProtocol.RunKeepsInv | internal/adapters/outbound/sqlite/auth_repository.go:47-96 | in every run each stored link was requested and is unused, each session has its consumed link, and pending verifications hold different links |
| Notifier.NothingLostOrReordered | internal/adapters/outbound/email/subrequest_notifier.go:137-248 | at every step the accepted jobs are the delivered ones, then the one in progress, then the queue, which is within its capacity; failing deliveries lose nothing |
| Notifier.RefusedOnlyWhenFull | internal/adapters/outbound/email/subrequest_notifier.go:214-248 | while open, a job is refused exactly when the queue is full, and then nothing changes; otherwise it joins the end of the queue |
| Notifier.DoneMeansDelivered | internal/adapters/outbound/email/subrequest_notifier.go:148-212 | when Done closes every accepted job has been handed on once and in order, and that stays so |
| Notifier.StopDrainsIffStarted | internal/adapters/outbound/email/subrequest_notifier.go:195-203 | when Stop may return, everything accepted has been handed on exactly if Start was called on a notifier that has a next one, or nothing had been accepted |
| Notifier.StartedIffStarted | internal/adapters/outbound/email/subrequest_notifier.go:148-162 | over every run there is a worker exactly if Start was called on a notifier that has a next one |
| Notifier.StopDropsWithoutStart | internal/adapters/outbound/email/subrequest_notifier.go:195-203 | a run in which a notifier that was never started is stopped and an accepted job is not delivered |
| Notifier.WorkerDrains | internal/adapters/outbound/email/subrequest_notifier.go:153-161 | a waiting worker on a closed queue delivers what is left in order, whichever deliveries fail, and leaves, so Stop does return |
| Notifier.StopReturnsDrained | internal/adapters/outbound/email/subrequest_notifier.go:195-203 | from every reachable state, also with a delivery in progress and whichever deliveries fail, closing the queue and leaving the worker its turns lets Stop return with everything accepted delivered if Start was called, and with nothing delivered if not |
| Notifier.AsyncNotifier.constructor | internal/adapters/outbound/email/subrequest_notifier.go:137-146 | an open, empty queue of the given capacity, or 32 if none is given, and no worker |
| Notifier.AsyncNotifier.Start | internal/adapters/outbound/email/subrequest_notifier.go:148-162 | with a next notifier the worker waits for jobs afterwards, and without one nothing changes; the queue and what was accepted stay |
| Notifier.AsyncNotifier.SubRequestCreated | internal/adapters/outbound/email/subrequest_notifier.go:214-224 | queues the event under its kind, or refuses and changes nothing when full; without a next notifier it is ignored |
| Notifier.AsyncNotifier.SubRequestTaken | internal/adapters/outbound/email/subrequest_notifier.go:226-236 | the same for taken events |
| Notifier.AsyncNotifier.SubRequestUntaken | internal/adapters/outbound/email/subrequest_notifier.go:238-248 | the same for untaken events |
| Notifier.AsyncNotifier.Process | internal/adapters/outbound/email/subrequest_notifier.go:164-175 | makes exactly one call on the next notifier, of the method the kind names, and returns that call's failure |
| Notifier.AsyncNotifier.Work | internal/adapters/outbound/email/subrequest_notifier.go:153-161 | the worker's loop on a closed queue hands on every job left in order, whichever of them fail |
| Notifier.AsyncNotifier.Stop | internal/adapters/outbound/email/subrequest_notifier.go:195-203 | whatever the worker is doing, the first call hands on the job in progress and every queued one, once and in order, whichever of them fail, and ends the worker; without a worker it only closes the queue; a later call does nothing |
| Admin.CreateUserMeaning | internal/app/admin/service.go:72-91 | exactly when creating a user succeeds, on a possibly outdated check for the email, and the enabled row it adds; forbidden, invalid and already-exists exactly when each is due, and a storage error for a refused insert |
| Admin.UpdateUserMeaning | internal/app/admin/service.go:93-111 | exactly when an update succeeds, that it changes the given columns of that user's row only, which error is due when, invalid before forbidden before not found, and that a refusal changes nothing |
| Admin.MasterUserMeaning | internal/app/bootstrap/service.go:26-42 | start-up fails exactly when it must insert the master user and cannot, changing nothing; else the master email ends with a user, an admin if new, other rows are left alone, and the next start-up does nothing |
| Admin.RolesStayValid | internal/adapters/outbound/sqlite/admin_repository.go:11-99 | in every run of creations, updates, imports and start-ups stored roles stay admin or member, and ids and emails unique |
| Admin.StepsAreCommands | internal/app/admin/service.go:72-155 | each step of such a run leaves the table as the whole command does, made on the table the run had come to |
| Admin.ImportMeaning | internal/app/admin/service.go:132-155 | exactly when an import succeeds; it keeps every row, adds only enabled members with non-blank persona emails that were not there, and leaves every such email in the table; a failure changes nothing |
| Admin.AllImported | internal/adapters/outbound/sqlite/dbgen/users.sql.gen.go:60-67 | inserting a list of emails keeps every row, adds only enabled members with emails of the list that were not there, and leaves every email of the list in the table |
| Admin.CanDeactivateExact | internal/app/admin/service.go:117-130 | the flag is set exactly when toggling that user's enabled bit would succeed, which then changes that bit only |
| Admin.UserOrderIsWeak | internal/app/admin/service.go:157-170 | the comparator is a strict weak order on users with stored roles |
| Admin.OrderNeedsTwoRoles | internal/app/admin/service.go:157-170 | over a set of roles the comparator is a strict weak order exactly when at most one of them is not admin |
| Admin.ThirdRoleBreaksOrder | internal/app/admin/service.go:157-170 | three enabled users with different emails, two roles among them and none of them admin, on which the comparator is no weak order |
| Admin.SortUsers | internal/app/admin/service.go:157-170 | sorts in place: a permutation in which enabled admins come first, then enabled members, then the disabled, each by lower-cased email |
| Admin.ListUsers | internal/app/admin/service.go:49-70 | forbidden exactly to those who are not admins; otherwise every user once, in that order, with an exact flag |
| Admin.UserRepository.CreateUser | internal/adapters/outbound/sqlite/admin_repository.go:11-24 | adds an enabled row under the next id and returns it, or fails on a taken email and changes nothing |
| Admin.UserRepository.ExecUpdate | internal/adapters/outbound/sqlite/dbgen/users.sql.gen.go:135-173 | gives the rows with that id the given role and enabled bit, changes no other row or column, and tells whether there was one |
| Admin.UserRepository.UpdateUser | internal/adapters/outbound/sqlite/admin_repository.go:39-75 | updates the given columns, reports not-found for an unknown id, and does nothing without error when no column is given |
| Admin.UserRepository.ImportUsers | internal/adapters/outbound/sqlite/admin_repository.go:77-99 | imports all the emails, or none if any statement or the commit fails |
| Admin.Service.CreateUser | internal/app/admin/service.go:72-91 | changes the users table and returns as the sequential command does, under either authorizer |
| Admin.Service.UpdateUser | internal/app/admin/service.go:93-111 | the same for updates |
| Admin.Service.ImportCatalogUsers | internal/app/admin/service.go:132-155 | the same for imports of the catalog's personas: those without an email are skipped, and without a working catalog nothing happens |
| Admin.EnsureMasterUser | internal/app/bootstrap/service.go:26-42 | changes the users table and returns as the start-up step does |
| Sorting.SortSlice | internal/app/subrequests/service.go:146-148 | what sort.Slice is relied on for: given a strict weak order, the slice becomes a sorted permutation of itself |
| Sorting.LexLessIsPrecedes | internal/app/admin/service.go:163-168 | the comparison of strings is the order by first differing character, a proper prefix coming first |
| UserTable.FindById | internal/adapters/outbound/sqlite/auth_repository.go:24-33 | a row with that id, and none exactly if there is none |
| UserTable.FindByEmail | internal/adapters/outbound/sqlite/auth_repository.go:13-22 | a row with that email, and none exactly if there is none |
| Dashboard.ShowTitlesById | internal/app/subrequests/service.go:451-461 | the loop builds the map in which, of several shows with one numeric id, the last decides |
| Dashboard.TitleOfLast | internal/app/subrequests/service.go:451-461 | an id is in the map exactly if a show has it, and the last such show gives the title |
| Dashboard.TitlesIgnoreOrderIff | internal/app/subrequests/service.go:451-461 | the map is the same for every order of the shows exactly when shows with equal numeric ids agree on the title |
| Dashboard.TitleDependsOnOrder | internal/app/subrequests/service.go:451-461 | two shows with ids 7 and 07 whose order decides the title |
| Dashboard.DetailMeaning | internal/app/subrequests/service.go:194-220 | exactly when the detail page is shown, its error otherwise, and what it says: the poster's email and the taker's if there is one, the title of the last show with the show id unless that is empty, past or not, and exactly the commands that would now succeed under the same authorizer, can-untake provided a policy table holds the seeded rows |
| Dashboard.ReverseInPlace | internal/app/subrequests/service.go:183-185 | the swapping loop reverses the list |
| Dashboard.SplitByTime | internal/app/subrequests/service.go:157-181 | the loop collects, in order, the items on either side of the present |
| Dashboard.KeptSplitsAtNow | internal/app/subrequests/service.go:155-185 | from items in start order, the two lists together hold every item once; upcoming is those not starting before now, earliest first; past is the rest, latest first |
| Dashboard.Partition | internal/app/subrequests/service.go:155-191 | the loop and the reversal produce that split |
| Dashboard.SortedShows | internal/app/subrequests/service.go:137-148 | exactly when the shows are listed; they are the cached ones in the order of lower-cased titles, in a list of the caller's own, and the cache keeps its order |
| Dashboard.ListDashboard | internal/app/subrequests/service.go:137-192 | exactly when the dashboard is shown and its error otherwise; the shows are the cached ones sorted by lower-cased title, the cache keeps its order, and the requests are split at the present |
| DashboardAgreement.DashboardAgreesWithDetailIff | internal/app/subrequests/service.go:137-220 | the two pages, whose titles come from one list of shows in two orders, agree in one state, viewer and clock reading on every item, title included and however the sort breaks ties, exactly if for the show of every listed request the last listed show of that id and those of it with the greatest lower-cased title display alike |
| DashboardAgreement.TitleSurvivesSortIff | internal/app/subrequests/service.go:146-155 | for one show id, every way of sorting the shows by lower-cased title leaves the displayed title as in the catalog's order exactly if the last listed show of the id and those with the greatest lower-cased title display alike, an empty title counting as unknown |
| DashboardAgreement.AgreeingTitlesMatch | internal/app/subrequests/service.go:451-461 | that condition holds for every id when shows with equal numeric ids have equal titles, so also when numeric ids are distinct |
| DashboardAgreement.PagesAgreeButForTitles | internal/app/subrequests/service.go:137-220 | whatever the titles, every dashboard item equals the detail page's in all but the title, and every request the detail page can show is on the dashboard, on the side of the present it says |
| DashboardAgreement.PagesDisagree | internal/app/subrequests/service.go:137-220 | with show 7 listed as Morning and then 07 as Evening, the detail page of every request for show 7 says Evening and every dashboard says Morning |
| DashboardAgreement.SortChangesTitle | internal/app/subrequests/service.go:146-155 | on that list every sort changes the displayed title of show 7 from Evening to Morning |
| DashboardAgreement.SortKeepsTitle | internal/app/subrequests/service.go:146-155 | with Alpha and then Beta the two titles differ and yet no sort changes what is displayed |

## Left out

- HTTP handlers, middleware, cookies, rate limiting, templates, email rendering and delivery, configuration, migrations and process wiring.
- SQLite, its drivers and its text form of times: each statement is one atomic step, and times are compared as instants.
- Foreign keys: a statement they refuse is a statement that fails.
- SHA-256, base64 and the random source: hashing is injective and every generated token is new.
- Casbin and its SQL adapter: a request is allowed when some row matches; failures while loading, adding or saving rows at start-up, and errors of a decision other than a refusal, are not modelled.
- URL parsing and JSON decoding: the page value of a URI is an arbitrary function, and a body is the tree it decodes to. A JSON number of 2^63 or more is no page, as its conversion to a 64-bit int behaves on amd64.
- The decoding of upstream shows and personas into titles and ids; the persona half of the cache, which the generic cache covers.
- A catalog without a source, whose every call fails; contexts and timeouts beyond a call that fails.
- The notifications the use cases send, and the reads and title lookups made for them.
- Lower-casing: the orders hold for any function from strings to strings.
- SubRequestSafety.StaleWriteIsAtomic: does not speak of creations, whose validation depends on the clock and the catalog rather than on the table. That update times never go back is not claimed either, since racing clients have read the clock in any order.
- SubRequestProtocol.RunKeepsInv: clients are authorized by the built-in rules, and so by a policy table with the seeded rows (SubRequestService.SeededTableExecutes); what further rows add to a decision is in Casbin.SeedingDecisions.
- Admin.Service.CreateUser: takes the built-in rules or a policy table with the seeded rows and no others; so do the other commands there and Admin.ListUsers.
- SubRequestService.Service.Delete: a single caller on working storage; lost and unconfirmed statements are steps of the protocol.
- Duration.DurationRoundTrip: durations are whole minutes, the granularity of the request form (internal/adapters/inbound/api/subrequest_handlers.go:160-174); other durations print rounded.
- Duration.SecondsAreCut: negative durations beyond an hour are covered in whole minutes only, since there the division into minutes may itself round.
- Notifier.AsyncNotifier.Start: to be called at most once, since a second call would set a second worker on the queue.
- Notifier.AsyncNotifier.SubRequestCreated: not to be called after Stop, since sending on the closed queue panics; the same holds for the other two.
- Notifier.AsyncNotifier.Stop: the object's method has no other caller active; every interleaving of enqueues, deliveries and the two halves of Stop is in the state machine.
- Auth.Service.RequestLogin: failures of token generation, storing and sending are parameters; their errors are one storage error.
- AuthProtocol.LogoutIsFinal: speaks of lookups made after the logout; for those made before, see AuthProtocol.AuthenticatedAfterLogout and AuthProtocol.LogoutStopsSessionIff.
- Admin.CreateUserMeaning: a failed look-up of the email, and a failed read-back of the new row, are not modelled.
- Sorting.SortSlice: the algorithm is an insertion sort of its own, not the library's.
