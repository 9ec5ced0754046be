# Verification of the storage, the bulk runs and the concurrent writes of scim2-server

scim2-server is a SCIM 2.0 server (RFC 7643, RFC 7644, RFC 9865). This project models three of its parts in Dafny, with
the handler steps that join them, and proves what they promise.

- **The in-memory storage.** `Memory.InMemoryStorage` keeps the dictionaries of the original as fields that its methods
  update: the resources by type, the owners of unique values with the reverse map, and the equality buckets with the
  reverse map. `Valid()` says that all of them agree with one set of resources, `contents`; every method keeps it. `Resources`
  states what each call means on that set alone, so the class refines it. An equality index is built by the first search
  that needs it, and a search gives the page of the scan over everything.
- **Cursor pages.** `Paging` cuts a page out of the sorted resources by counting keys around the anchor of a position.
  `Walks` follows `next` and `previous` over collections that change arbitrarily between two requests.
- **Optimistic writes.** `Handlers` reads, applies and writes with the version it read. `Optimistic` is a transition system
  whose steps are single storage calls of any number of clients, without a lock: the asynchronous handler over the
  asynchronous storage.
- **Bulk requests.** `References` substitutes the `bulkId:` references of an operation, `Planning` orders the operations,
  `BulkRuns` and `BulkGuarantees` state and prove what a run does, and `BulkHandlers` is the plan and the handler that
  run it against the storage. In `BulkRuns` other clients may write before each step and between its read and its write,
  as with the asynchronous handler: `Surroundings.before` and `Surroundings.during` are any functions. Only what a run
  leaves in the storage as a whole (`BulkGuarantees.RunIsSerial`) and the synchronous handler suppose that there is no
  other client; `BulkGuarantees.StepAmongOthers` is about the write of each step among them.
- **Conditional headers.** `Conditions` reads the tag lists of `If-Match` and `If-None-Match`.

`dafny verify dfyconfig.toml` checks the whole project.

## How to read it

A class of the source is a class here, with the same fields; each method ensures that the new state is a function of the
old one (`State()`), and the lemmas are about those functions. Exceptions are `Result` values with the status they answer.
What lies outside is a parameter: how a PUT or a PATCH changes a resource (`Service.apply`), how values are read and
compared (`Policy`), any filter but one `eq` on a string, routing, authorization, new identifiers and dates
(`Surroundings`). The guarantees hold for every choice of them.

They rest on assumptions that the source leaves to its callers. Where one is needed, the model says so with a proof:

- *Searched types share no identifier.* It holds in a search on one type. In a root search two resources of different types
  may share an identifier and a sort value; `Walks.PagesFollowExactly` shows that paging then skips one of them for some
  count, and that it skips none otherwise.
- *The `resources` setter is given no clashing unique values*, since it does not check them. The model takes every list:
  `Memory.InMemoryStorage.SetResources` completes with indexes that agree exactly when no resource clashes with those
  loaded before it, even when a later one of the list replaces the clashing one (`Memory.ReplacedClashCounts`).
- *It is given resources with versions, none of them yet to be issued by the counter*. It keeps what it is given, and a
  handler that read no version expects none. `Optimistic.UpdatesAreLostExactly` shows that an update can be lost exactly
  when one of these two fails for the resource, and `Optimistic.IfNoneMatchIsIgnoredExactly` that an If-None-Match can be
  ignored exactly when the first one does. If-Match needs neither.
- *No identifier given to a referenced bulk creation starts with `bulkId:`*; only the guarantee that no reference is
  stored needs it (`BulkGuarantees.ResolvedDataHasNoReference`). In a path an identifier must hold no slash either
  (`References.CleanId`).
- *One comparison policy serves the whole life of a storage*, as its documentation asks.

Three facts that the text of the source does not say. Nothing checks that a generated identifier is new: a creation over
an existing key replaces the resource, and the model does so. A descending search reverses whole keys, so missing
values come first and identifiers descend, although `_sort_key` is documented as putting missing values last. And a page
that a walk asks for after everything beyond its anchor was deleted is empty, and has neither `next` nor `previous`.

## Model

| member | source | states |
|---|---|---|
| `SortKeys.OrderIsStrictAndTotal` | scim2_server/memory.py:81-106 | any two sort keys are comparable, equal only when they are the same key, and the comparison is transitive, in an ascending search and in a descending one |
| `SortKeys.PositionRoundTrip` | scim2_server/memory.py:109-146 | a position is always readable, and it gives back its direction and its key if and only if the key has the form a search makes: a missing value is stored with "" |
| `SortKeys.ReadableExactly` | scim2_server/memory.py:115-146 | a position is readable if and only if it has a known direction, a text as identifier, and no value or one that a search encodes; any other is answered 400 |
| `SortKeys.NotLessText` | scim2_server/memory.py:81-84 | texts are compared letter by letter: a text is not after another exactly when it is its start, or has a smaller letter where they first differ |
| `Sorting.SortPermutes` | scim2_server/memory.py:54-58 | sorting loses, adds and repeats no resource |
| `Sorting.SortWeaklyAscending` | scim2_server/memory.py:54-58 | no sorted resource has a smaller key than one before it, whether or not keys are shared |
| `Sorting.SortCanonical` | scim2_server/memory.py:54-58 | with distinct keys the sorted list depends on which resources were found, not on the order a dictionary gave them in |
| `Paging.PageForgetsTheWalk` | scim2_server/memory.py:41-78 | with distinct keys the whole page, its total, resources, next and previous, depends on which resources were found and not on their order |
| `Paging.PageIsSlice` | scim2_server/memory.py:59-70 | every page is a slice of the sorted resources |
| `Paging.TotalIsEverything` | scim2_server/memory.py:59-73 | every page tells the number of matching resources, wherever it is cut |
| `Paging.IndexPageIsExact` | scim2_server/memory.py:59-62 | a page by index holds exactly the sorted resources from its index on, up to its count, and has neither next nor previous |
| `Paging.IndexPagesAreContiguous` | scim2_server/memory.py:59-62 | a page by index and the rest after it are the page without a count |
| `Paging.CountIsASplit` | scim2_server/memory.py:99-106 | counting the keys before the anchor finds the place where a sorted list splits around it |
| `Paging.BoundsAfter` | scim2_server/memory.py:87-102 | a forward position starts at the first key beyond its anchor, wherever the anchor went, and stops at the count or at the end |
| `Paging.BoundsBefore` | scim2_server/memory.py:104-106 | a backward position stops at the first key that is not before its anchor, and starts a count earlier or at the beginning |
| `Paging.PageAfter` | scim2_server/memory.py:68-78 | a forward page holds, in order, exactly the matching resources beyond the anchor up to its last one; without next it holds all of them |
| `Paging.PageBefore` | scim2_server/memory.py:68-78 | the mirror of a forward page, for a previous position |
| `Walks.ForwardWalkIsStable` | scim2_server/memory.py:41-106 | stable pages: whatever changes between the pages, a walk returns resources in strict sort order, none twice under one key, and a walk that ends returns exactly once every key that was held at every page |
| `Walks.BackwardWalkIsStable` | scim2_server/memory.py:67-106 | the same for a walk along previous, over the keys before the page it starts from |
| `Walks.UnchangedCollection` | scim2_server/testing.py:756-783 | on an unchanged collection the forward pages concatenate to the whole sorted list, in ceil(n/count) pages, and each previous position leads back to the page before, from the last page to the first, which has none |
| `Walks.CountZeroPagesNothing` | scim2_server/memory.py:64-65 | a count of 0 returns the total, no resource and no position |
| `Walks.SharedKeyIsSkipped` | scim2_server/memory.py:99-103 | two matching resources with one sort key on each side of a page end: the second one is on no later page |
| `Walks.PagesFollowExactly` | scim2_server/memory.py:41-106 | the pages of an unchanged collection follow each other without a gap, whatever the count, if and only if no two matching resources share a sort key |
| `Resources.PutKeepsConsistent` | scim2_server/memory.py:427-434 | a write that clashes with no other resource keeps every resource under its own key and every unique value with one resource |
| `Resources.CreationIsExact` | scim2_server/memory.py:292-308 | a creation is refused if and only if another stored resource of any type holds an equal value under the same URN |
| `Resources.ReplacementIsExact` | scim2_server/memory.py:310-333 | a replacement is refused if and only if nothing is stored, or the version is not the expected one, or another stored resource shares a unique value; it keeps the creation date, and has the content, the date and the version of the write |
| `Resources.DeletionIsExact` | scim2_server/memory.py:335-345 | a deletion is refused if and only if nothing is stored, or a version is expected and is not the stored one; otherwise the key leaves, and the counter stays |
| `Resources.ValuesAreHeld` | scim2_server/memory.py:436-474 | a resource has a unique value under a URN if and only if it holds a comparable one for an attribute of that URN, and the last such attribute gives it |
| `Resources.CallsKeepConsistent` | scim2_server/memory.py:292-345 | create, update and delete keep the resources consistent; a refused one keeps all of them, and a refused deletion even the version counter; a committed one changes its own key only |
| `Resources.MatchingSearchable` | scim2_server/memory.py:81-84 | when the searched types share no identifier, no two matching resources share a sort key, so every paging guarantee applies |
| `Resources.AnyWalkIsNaive` | scim2_server/memory.py:269-290 | a search that walked exactly the matching resources, in any order, returns the page of the search that scans everything |
| `Resources.MatchingIsExact` | scim2_server/memory.py:269-290 | a search matches the stored resources of its types that its filter accepts: with eq on a text, those whose value compares equal to it, and none when the text cannot be compared |
| `Resources.IndexSearchIsExact` | scim2_server/memory.py:59-62 | a search by index returns the sorted matching resources from its index on, up to its count, with their number |
| `Resources.PageIsOrdered` | scim2_server/memory.py:54-84 | on every page, resources follow each other by sort value (numbers and dates upwards, false before true, texts letter by letter), then by identifier; a descending search reverses both |
| `Resources.MissingValuesAtOneEnd` | scim2_server/memory.py:54-84 | on every page, resources without sort value come last in an ascending search and first in a descending one |
| `Memory.OwnersAfterRemoval` | scim2_server/memory.py:403-407 | forgetting a resource and deleting the owners of its recorded values leaves owners that agree with the remaining resources |
| `Memory.OwnersAfterAddition` | scim2_server/memory.py:392-398 | recording the owners of an added resource leaves owners that agree with the resources, when it clashes with none |
| `Memory.EqualitiesAfterRemoval` | scim2_server/memory.py:403-409 | discarding a resource from the buckets of its recorded values leaves buckets that partition the remaining resources by value |
| `Memory.EqualitiesAfterAddition` | scim2_server/memory.py:392-401 | indexing an added resource under every indexed attribute leaves buckets that partition the resources by value |
| `Memory.IndexComplete` | scim2_server/memory.py:373-382 | an index built on its first search agrees with the resources stored before it |
| `Memory.BucketIsExact` | scim2_server/memory.py:363-371 | the bucket of a value in an index lists exactly the stored resources of the type that hold it |
| `Memory.OwnersNeedUniqueness` | scim2_server/memory.py:392-398 | owners agree with the stored resources only when no two of them share a unique value |
| `Memory.BrokenStays` | scim2_server/memory.py:392-407 | once a value has two holders, or a holder and no owner, storing any other resource without a check leaves it so |
| `Memory.ReplacedClashCounts` | scim2_server/memory.py:228-236 | loading A(x), B(x), then B(y) leaves no clash among the loaded resources, and is a clashing list all the same |
| `Memory.LoadingIsExact` | scim2_server/memory.py:228-236 | one step of the setter meets a missing owner only after a clash, and no later step forgets a clash |
| `Memory.DropOwner` | scim2_server/memory.py:406-407 | deletes one owner and no other; it needs an owner to delete |
| `Memory.Discard` | scim2_server/memory.py:408-409 | removes one identifier from one bucket and nothing else; it needs the bucket |
| `Memory.KeptIsExact` | scim2_server/memory.py:285-287 | filtering the candidates keeps exactly the matching ones, each as often as it was walked |
| `Memory.InMemoryStorage.constructor` | scim2_server/memory.py:207-217 | an empty storage, its indexes agree with it, and its counter starts at 1 |
| `Memory.InMemoryStorage.SetResources` | scim2_server/memory.py:228-236 | for every list, the setter completes with indexes that agree if and only if no resource of the list clashes with those loaded before it, but the one it replaces; otherwise it meets a missing owner or leaves indexes that disagree |
| `Memory.InMemoryStorage.NextVersion` | scim2_server/memory.py:245-251 | gives the version of the counter and advances it |
| `Memory.InMemoryStorage.Get` | scim2_server/memory.py:259-267 | returns the stored resource of a key, or not found |
| `Memory.InMemoryStorage.ReadValues` | scim2_server/memory.py:436-458 | collects the comparable unique values of a resource by attribute URN, skipping those that are missing or cannot be compared |
| `Memory.InMemoryStorage.CheckUniqueness` | scim2_server/memory.py:427-434 | through the owner index, refuses if and only if another stored resource of any type holds an equal value under the same URN |
| `Memory.InMemoryStorage.IndexEquality` | scim2_server/memory.py:384-390 | records the compared value of one resource for one attribute, in both directions, and changes no other entry |
| `Memory.InMemoryStorage.Remove` | scim2_server/memory.py:403-409 | forgets one key in the resources and in all four index dictionaries; it meets a missing entry if and only if a value of the resource has no owner |
| `Memory.InMemoryStorage.RemoveStored` | scim2_server/memory.py:403-409 | on a storage whose indexes agree the removal meets no missing entry, even for a key that is not stored, and they agree again |
| `Memory.InMemoryStorage.StoreResource` | scim2_server/memory.py:392-401 | replaces or adds one resource without a check: the last one to take a value owns it |
| `Memory.InMemoryStorage.StoreChecked` | scim2_server/memory.py:302-306 | after the uniqueness check, storing fails nowhere and every index agrees again |
| `Memory.InMemoryStorage.EqualityIndex` | scim2_server/memory.py:373-382 | gives an index that agrees with the stored resources, building it when missing, and changes no resource |
| `Memory.InMemoryStorage.Candidates` | scim2_server/memory.py:347-371 | walks stored resources of the searched types, each once, among them every matching one |
| `Memory.InMemoryStorage.Lookup` | scim2_server/memory.py:363-371 | the indexed walk returns every stored resource of the type with the wanted value, and no resource of another type |
| `Memory.InMemoryStorage.Scan` | scim2_server/memory.py:357-362 | the plain walk returns every stored resource of the types, once |
| `Memory.InMemoryStorage.Search` | scim2_server/memory.py:269-290 | fast search is naive search: the page is cut out of exactly the matching resources, and equals that of the full scan when the types share no identifier; a page by index tells their number and has the length its index and count leave; no resource changes |
| `Memory.InMemoryStorage.Create` | scim2_server/memory.py:292-308 | gives the new state and the result of the specification of a creation; a refused one leaves all five dictionaries unchanged |
| `Memory.InMemoryStorage.Update` | scim2_server/memory.py:310-333 | the same for a replacement: not found, then the expected version, then uniqueness, and only then the write |
| `Memory.InMemoryStorage.Delete` | scim2_server/memory.py:335-345 | the same for a deletion |
| `Versions.DecimalInjective` | scim2_server/memory.py:245-251 | two numbers with one decimal text are the same number |
| `Versions.DecimalIsRead` | scim2_server/memory.py:245-251 | a number is printed in decimal digits, without a zero in front |
| `Versions.VersionInjective` | scim2_server/memory.py:245-251 | two writes never share a version |
| `Conditions.Parse` | scim2_server/conditions.py:32-48 | the loop over the members of a header returns their opaque parts as a set, "*" when a bare star is among them, and nothing for a missing or blank header |
| `Conditions.OpaqueRoundTrip` | scim2_server/conditions.py:12-19 | a written tag, quoted or bare, weak or strong, in either case of the prefix and between blanks, is read as its opaque part |
| `Conditions.ScanPrinted` | scim2_server/conditions.py:9 | the first member of a header that starts with a written tag is that tag; a quoted one may hold commas, and a bare one ends before its trailing blanks |
| `Conditions.ListRoundTrip` | scim2_server/conditions.py:9-48 | a written non-empty list of tags, quoted or bare, with spaces, tabs or any other blanks around its commas, is read as exactly the set of its opaque parts, and never as "*" |
| `Conditions.MatchesIsWeakComparison` | scim2_server/conditions.py:50-64 | a version matches a printed list if and only if one listed tag has the same opaque part (section 8.8.3.2 of RFC 9110) |
| `Conditions.OpaqueVersionInjective` | scim2_server/conditions.py:12-19 | two versions of the counter with one opaque part are the same version |
| `Conditions.ConditionsAreExact` | scim2_server/conditions.py:74-97 | for every pair of written headers (absent, a star or a list of tags), a request goes on if and only if If-Match is absent or names the version and If-None-Match does not; 304 is for a GET alone (section 13.2.2 of RFC 9110) |
| `Conditions.StarIsRead` | scim2_server/conditions.py:42-44 | a star between blanks is read as "*" |
| `Handlers.WriteHandler.ReplaceResource` | scim2_server/handler.py:176-189 | a PUT leaves the storage and the outcome of the whole request: read, preconditions, replacement, then an update that expects the version that was read |
| `Handlers.WriteHandler.PatchResource` | scim2_server/handler.py:191-205 | the same for a PATCH; one that changes nothing returns the resource as it is |
| `Handlers.WriteHandler.DeleteResource` | scim2_server/handler.py:207-216 | the same for a DELETE |
| `Handlers.WriteHandler.CreateResource` | scim2_server/handler.py:75-96 | the same for a POST |
| `Handlers.FinishKeepsConsistent` | scim2_server/service.py:649-660 | whatever the request read, its write keeps the resources consistent, commits only over the version that was read, if one was, and changes no other key |
| `Handlers.ServeKeepsConsistent` | scim2_server/handler.py:176-216 | a request served whole keeps the resources consistent, and changes them only when it commits |
| `Handlers.WriteIsExact` | scim2_server/service.py:975-988 | for what a PUT or a PATCH read: a failed condition or application answers its failure, and one that changes nothing returns the resource as it is, both without touching the storage or its counter; a new content is an update that expects the version read |
| `Handlers.WriteIsServed` | scim2_server/handler.py:176-205 | served whole, a PUT or a PATCH that gives a new content is refused only for a unique value of another resource |
| `Handlers.DeletionIsServed` | scim2_server/handler.py:207-216 | served whole, a DELETE removes a stored resource if and only if its conditions are met |
| `Handlers.CreationIsServed` | scim2_server/memory.py:292-308 | served whole, a POST stores its content under its identifier, with the date and the version of the write, or is refused for a unique value |
| `Optimistic.NoLostUpdate` | scim2_server/handler.py:512-556 | for any number of clients interleaved between storage calls without a lock, a request that commits finds exactly the resource its client read, unless that resource was loaded without a version or with one yet to be issued |
| `Optimistic.RunsAreSerializable` | scim2_server/handler.py:512-556 | the resources after any interleaving are those of the committed requests served whole, in commit order, when no client reads such a resource |
| `Optimistic.ConditionsHoldAtCommit` | scim2_server/conditions.py:74-97 | in every run, the version that a committed write replaces or deletes is one of those a list in If-Match holds; no committed write has a star in If-None-Match, and a list there does not hold that version when the client read one |
| `Optimistic.IfNoneMatchIsIgnoredExactly` | scim2_server/service.py:649-660 | some run commits over a version that matches its If-None-Match only when ETags are supported and the resource was loaded without a version; and then some run does, as soon as a write can store a new content over it |
| `Optimistic.VersionlessIgnoresIfNoneMatch` | scim2_server/memory.py:421-425 | the run that does, where another client gives the resource the excluded version after the read |
| `Optimistic.VersionsAreNotReused` | scim2_server/memory.py:245-251 | over every run from an empty storage, a version names one resource with one content |
| `Optimistic.UpdatesAreLostExactly` | scim2_server/memory.py:228-236 | some run loses an update of a resource only if it was loaded without a version, or with one that the counter has yet to issue; and then some run does, for any service and any policy, as soon as a write can store a new content over it |
| `Optimistic.UnguardedLosesAnUpdate` | scim2_server/memory.py:421-425 | the run that loses it, in both cases, with new identifiers only |
| `Optimistic.PostSpendsAVersion` | scim2_server/memory.py:292-306 | how that run advances the counter: posting the content of a resource again under a new identifier is refused, or stores a resource without unique values, and spends a version in both cases |
| `Optimistic.SameVersionIsSameState` | scim2_server/memory.py:421-425 | a resource that still has the version a client read still is what the client read |
| `Optimistic.PagesAreStableInEveryRun` | scim2_server/memory.py:41-106 | stable pages over the runs of the clients: a finished walk whose pages were asked at any moments returns exactly once each resource that was stored and matched, with one sort key, at all of them, and no other resource under that key |
| `Optimistic.PreviousPagesAreStableInEveryRun` | scim2_server/memory.py:67-106 | the same for a walk along previous, over the resources before the page it starts from |
| `References.ReplaceIsSubstitution` | scim2_server/bulk.py:15-43 | the traversal that copies on change equals the plain substitution of every reference, keeps a value if and only if it has no reference, visits exactly the references in order, and fails at the first one without replacement |
| `References.SubstituteLeavesNone` | scim2_server/bulk.py:15-43 | no reference is left if and only if no replacement is one in turn |
| `References.SplitJoin` | scim2_server/bulk.py:51-56 | splitting a joined path gives back its segments |
| `References.JoinSplit` | scim2_server/bulk.py:51-56 | joining the segments of a path gives it back |
| `References.ReferenceIsRead` | scim2_server/bulk.py:12-23 | a text is a reference if and only if it starts with "bulkId:", and references what follows |
| `References.NothingToResolve` | scim2_server/bulk.py:46-62 | an operation without reference resolves to itself |
| `References.ResolveIsSubstitution` | scim2_server/bulk.py:46-62 | the same for the path and the data of an operation |
| `References.ReferencesAreMentions` | scim2_server/bulk.py:190-200 | collecting the references visits exactly those that a resolution replaces |
| `References.ResolvedHasNoReference` | scim2_server/bulk.py:190-232 | a resolved operation has no reference left, when the identifiers have no slash and are no references |
| `Planning.PlanSteps` | scim2_server/bulk.py:112-138 | the explicit-stack walk ends for every graph, cyclic or not, with a plan: every operation once, dependencies first but inside a cycle, and no needless reordering; its stack is always a simple path, never deeper than the number of operations |
| `Planning.DepthIsBounded` | scim2_server/bulk.py:118-138 | a stack that is a simple path is no deeper than the number of operations |
| `Planning.PlanIsPermutation` | scim2_server/bulk.py:112-138 | every operation is in the plan exactly once |
| `Planning.AcyclicPlanIsTopological` | scim2_server/bulk.py:112-146 | without circular references every referenced creation comes before the operations that reference it |
| `Planning.ReorderedIsReferenced` | scim2_server/bulk.py:78-89 | an operation that runs before an earlier one is a creation that one not after the latter references, directly or through others |
| `BulkRuns.CreationIsFirstPost` | scim2_server/bulk.py:102-108 | a bulkId stands for the first POST that has it, and for no other operation |
| `BulkRuns.GraphIsReferences` | scim2_server/bulk.py:102-146 | an operation depends on another if and only if its path or its data mentions a bulkId whose first POST is the other |
| `BulkRuns.GraphOf` | scim2_server/bulk.py:140-146 | every dependency is an operation of the request |
| `BulkRuns.ResolvesExactly` | scim2_server/bulk.py:202-232 | an operation with a bulkId of its own resolves if and only if every creation it references has run and succeeded; a repeated bulkId is refused |
| `BulkRuns.PrepareReports` | scim2_server/service.py:1091-1174 | routing, resolution, location, authorization and validation keep the verb and the bulkId of an outcome, and give all but a POST a location |
| `BulkRuns.ServedExactly` | scim2_server/handler.py:270-336 | a request is served if and only if the operation is routed to a type, resolves, is authorized and has no validation error; it has the kind of the verb, the type of the route, and the data, the path and the version of the resolved operation |
| `BulkRuns.UnroutedStops` | scim2_server/handler.py:283-296 | an operation without endpoint has the status of its routing, is at its path, and commits nothing |
| `BulkRuns.RepeatedExactly` | scim2_server/bulk.py:212-220 | a POST repeats a bulkId if and only if an earlier POST has it; no other operation does |
| `BulkRuns.FailureIsExplained` | scim2_server/bulk.py:222-230 | an operation that does not resolve has a reference without created resource: its creation has yet to run, or none succeeded |
| `BulkRuns.UnresolvedStops` | scim2_server/bulk.py:202-232 | a routed operation with a repeated bulkId is answered 400, and one with a reference that fails 409; it is at its path, and commits nothing |
| `BulkRuns.UnauthorizedStops` | scim2_server/service.py:353-371 | a resolved operation that is not authorized has the status of the refusal, whatever its validation said, is at the resource of its resolved path, and commits nothing |
| `BulkRuns.InvalidStops` | scim2_server/service.py:1160-1167 | an authorized operation that failed its validation has the status of its error, and commits nothing |
| `BulkRuns.UntypedIsRefused` | scim2_server/handler.py:283-302 | an operation without verb or path that kept no validation error is an unexpected failure, of status 500 |
| `BulkRuns.UnpreparedStops` | scim2_server/service.py:1169-1174 | an operation that gives no request has the status of its failure, commits nothing and leaves the storage as it is |
| `BulkRuns.RequestlessStops` | scim2_server/handler.py:316-336 | a PATCH the service does not support is answered 501, and a path without identifier 404 |
| `BulkRuns.AnswersAreReported` | scim2_server/service.py:1169-1192 | an operation that runs is answered 201, 200 or 204 by its verb, or the status of its failure: 404, 412 or 409 |
| `BulkRuns.PerformReports` | scim2_server/handler.py:270-302 | a step that succeeds has resolved its references, and one that creates reports the resource it created |
| `BulkRuns.SuccessesAreLocated` | scim2_server/service.py:1139-1192 | among other clients or alone, a success is located at the resource it created or updated, as the storage now holds it and with its version, at the unchanged one it read, or at the one it deleted, which the storage no longer holds |
| `BulkRuns.RecordKeepsLinks` | scim2_server/bulk.py:172-180 | recording an outcome keeps each created resource with the creation that succeeded, and each success after the creations it references |
| `BulkRuns.RecordCountsErrors` | scim2_server/bulk.py:172-180 | recording an outcome keeps the number of errors exact and under the cap |
| `BulkRuns.RunIsSound` | scim2_server/handler.py:260-302 | all of this holds at every moment of every run |
| `BulkGuarantees.ResolvesInEveryRun` | scim2_server/bulk.py:202-232 | at every moment of every run, an operation resolves if and only if each creation it references already ran with a status below 400 (section 3.7.1 of RFC 7644) |
| `BulkGuarantees.CycleFails` | scim2_server/bulk.py:202-232 | no operation on a cycle of references succeeds |
| `BulkGuarantees.SuccessesReachSuccesses` | scim2_server/bulk.py:202-232 | a success reaches only successes: no operation succeeds that references, directly or through others, a cycle, a failed creation or an unknown bulkId |
| `BulkGuarantees.WholeRun` | scim2_server/bulk.py:148-184 | the operations that ran are a prefix of the plan, all of it without a cap; a run stops short only at the cap; the errors never exceed max(1, failOnErrors); and there is one outcome for each operation that ran, with a location unless it is a failed POST (section 3.7.3 of RFC 7644) |
| `BulkGuarantees.RanIndices` | scim2_server/bulk.py:182-184 | the outcomes are listed for exactly the operations that ran, in request order |
| `BulkGuarantees.RunIsSerial` | scim2_server/handler.py:260-336 | the storage after any number of steps holds what the requests of the successful operations alone would leave, served whole in plan order, and stays consistent; each committed request is the one its operation stood for when it ran |
| `BulkGuarantees.StepAmongOthers` | scim2_server/handler.py:610-680 | whatever other clients do between the read and the write of a bulk step, a write that commits acts on exactly the resource the step read, and is a whole request served at that moment; any other step keeps every resource |
| `BulkGuarantees.FailureLeavesNoTrace` | scim2_server/handler.py:270-302 | a step that failed commits no request and keeps every resource, even when other clients write between its read and its write |
| `BulkGuarantees.LogOfRun` | scim2_server/handler.py:260-302 | in every run, among other clients or alone, the committed requests come from distinct operations that succeeded, in plan order |
| `BulkGuarantees.CommitsAreAuthorized` | scim2_server/handler.py:283-302 | each committed request of every run comes from an operation that was routed, resolved, authorized and valid when it ran, and is the request that operation stands for |
| `BulkGuarantees.OutcomeIsPerformed` | scim2_server/bulk.py:172-184 | what is recorded for an operation is what its step answered, and stays so |
| `BulkGuarantees.StopsAtTheCap` | scim2_server/bulk.py:148-166 | at every moment of every run, a step was left out only if the client gave a cap and the errors had reached it |
| `BulkGuarantees.HopelessCommitsNothing` | scim2_server/bulk.py:202-232 | no committed request comes from an operation on a reference cycle, from one that references an unknown bulkId, or from one that reaches such an operation or a failed one |
| `BulkGuarantees.NoReferenceIsStored` | scim2_server/bulk.py:202-232 | no committed request of a run carries a reference, when no identifier of a creation that some data references is one itself |
| `BulkGuarantees.ResolvedDataHasNoReference` | scim2_server/bulk.py:202-232 | resolved data mentions no bulkId if and only if no identifier it got is a reference |
| `BulkHandlers.BulkPlan.constructor` | scim2_server/bulk.py:91-110 | the loop that keeps the first POST of each bulkId, and the plan of the references, before anything ran |
| `BulkHandlers.BulkPlan.Record` | scim2_server/bulk.py:172-180 | the new results, created resources and errors are those of the specification |
| `BulkHandlers.BulkHandler.ApplyBulkOperation` | scim2_server/handler.py:303-336 | a validated operation leaves the storage and the outcome of the single request it stands for |
| `BulkHandlers.BulkHandler.RunBulkStep` | scim2_server/handler.py:270-302 | a step routes, resolves, locates, authorizes, then applies: its report, its resource and the storage are those of the specified step |
| `BulkHandlers.BulkHandler.Bulk` | scim2_server/handler.py:260-268 | the loop over the plan leaves the progress and the storage of the specified run, and returns its outcomes in request order; fewer outcomes than operations mean a cap that the errors reached |
| `BulkHandlers.StoppedForGood` | scim2_server/bulk.py:161-166 | once the cap is reached no later step changes anything |

## Left out

- SortKeys.OrderIsStrictAndTotal: does not model comparisons of sort values of different kinds, which raise a TypeError in Python; the model orders the kinds.
- SortKeys.PositionRoundTrip: takes the ISO text of a date and time as an inverse pair, and does not model floating point text.
- BulkGuarantees.RunIsSerial: is stated for a run without other clients; with them, each committed step is serial at its own commit (`BulkGuarantees.StepAmongOthers`).
- Memory.InMemoryStorage.SetResources: a loaded resource has a resource type and an identifier here, which the data types of the source leave optional; what is left of the dictionaries after a missing owner raised is not described.
- Memory.InMemoryStorage.ReadValues: does not model two different values that `_hashable` gives one text, nor attribute paths; a policy gives the comparable value.
- Deep copies and aliasing of resources: resources are values.
- The encryption and the expiry of cursors, and the digest that ties a cursor to its query: positions pass from page to page as they are.
- Python's regular expression engine: the tag pattern is a deterministic scanner with the same members.
- PATCH and PUT semantics, filter parsing, schema validation, serialization, attribute selection and URLs.
- WSGI and ASGI applications, tenants, forwarded headers, the command line, credentials, logging, discovery endpoints and `/Me`.
- The SQLite and library example storages, and the detection of deprecated storage signatures.
- The lock of the synchronous storage: each of its calls is one step.
