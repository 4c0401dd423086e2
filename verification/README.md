# Migration of firewall rules to SD-WAN: a verified model

The program takes firewall rules, maps their operands to objects of an SD-WAN, decides which rules the SD-WAN
already has, and pushes the missing ones. This project models the algorithms on which that decision rests and
proves what they promise.

- **Hashing** (`Order`, `Permutations`, `Json`, `JsonHash`, `Fingerprint`). `json_hash` sorts lists by their compact
  serialisation and hashes the result. The serialiser is shown to be uniquely decodable, so `normalize` is a canonical
  form of "equal up to list order and `str()` of scalars". The catalog fingerprint then tells apart exactly the
  catalogs that differ by more than list order.
- **Address groups** (`Collections`, `Graphs`, `Levels`, `CatalogModels`, `ParentQueries`, `CatalogLoading`,
  `AddressGroups`, `CatalogConversion`). Groups form a graph that may be cyclic. The catalog loader walks it level by
  level from the server, where one object may come in several rows with different parents; the leaf resolver walks the
  loaded objects recursively, with its own bound. Both are proved exact, they are proved to agree, and the edges that
  loading loses are characterised.
- **Rule comparison** (`RuleValues`, `Rules`, `RuleMeaning`, `RuleErrors`, `Coverage`, `RuleEvidence`, `RuleResolver`,
  `ExactSignature`, `Comparer`, `Verdicts`). A rule means the set of (source zone, destination zone, source,
  destination, service) tuples it matches, read off the catalog graph. The verdicts EXACT, COVERED, NEW and MATCH_ERROR
  are proved against that meaning, and the signature index against a plain scan.
- **Verdicts on the server** (`PolicyCatalog`, `ServerMeaning`, `MisleadingMatch`). A verdict is about the loaded
  catalog. The exact condition under which it also holds for the server's own groups is proved for COVERED and EXACT.
- **Plans and pushes** (`PolicyGateway`, `PlanSteps`, `PlanCommands`, `PolicyRuns`, `PushedTwice`). Preparing a plan and
  pushing it are separate commands on a stored plan; pushes check, mark and send in separate steps, and others may add
  policies at any time. The server may refuse, or store a policy and lose the reply. Policies are conserved over every
  interleaving, and it is proved exactly when a body is stored twice and that exclusive runs store it once.
- **Trace view** (`TraceGraph`, `TraceFilter`, `TraceDeepLink`, `TreeShape`, `TraceTree`) and **canonical groups**
  (`GroupExpansion`). Five traversals of possibly cyclic membership are proved exact and terminating; the backward
  filter is proved equal to the forward dependencies.
- **Protocols** (`ClientRegistry`, `TokenRefresh`, `Pagination`, `Transactions`, `ZoneAssignment`). Client ownership
  and token refresh under every interleaving, cursor loops, nested units of work, zone assignment by overlapping
  commands.

Parameters stand for what cannot be seen: the string hash, the `repr` of a signature, text and domain normalisation and
display texts (`Rules.Primitives`), the answers of the server, fresh ids and the clock. Results that need injectivity
of the hash or of `repr` say so (`JsonHash.CollisionFree`, `ExactSignature.Faithful`); all others hold for any choice.
Meaning is proved under both readings of an empty operand list (`emptyIsAny`): matching everything and matching nothing.

Classes of the program are classes here, with the fields that its methods update; each method is proved equal to a
specification function of the old state, and the lemmas are about that function. Dictionaries are maps, or sequences
where their insertion order is observable.

## What the code does differently from its own words

- `get_addr_objects` says that merging chunks preserves distinct object-parent combinations. It keeps one row per id,
  the last one fetched (`ParentQueries.MergeKeepsLast`, exact condition in `ParentQueries.ChunkedQueryExact`). The
  loader keys its rows by id and parents, but children reach it merged: `CatalogLoading.EdgeLoadedExactly` says which
  edges survive, `CatalogLoading.MergeHidesEdge` gives an input that loses one, and `CatalogConversion.LeavesMatchServer`
  says exactly when the leaves are still those of the server.
- A network object whose network has no net is dropped without notice, which shrinks the groups that hold it
  (`CatalogConversion.DroppedNetworkShrinksGroup`). `MisleadingMatch.ExactButWider` is an input on which the verdict is
  EXACT although the draft may match more on the server. `ServerMeaning.FieldKeptExactly` is the exact condition for
  one address list, `ServerMeaning.CoveredOnServer` and `ServerMeaning.ExactOnServer` lift it to the verdicts.
- The fingerprint sorts the two ends of a port range as well: a range and its reverse are not told apart
  (`Fingerprint.SwappedRangeCollides`). Catalogs whose ranges are ordered are told apart exactly
  (`Fingerprint.OrderedCatalogIdentified`).
- A coverage entry is said to list only strict deltas. A planned value with an equal existing value is listed exactly
  when a wider existing value comes before the first equal one (`Coverage.ListedThoughEqual`, input in
  `Coverage.EqualValueReported`).
- After an outermost transactional call, the listed units of work keep the closed session
  (`Transactions.LaterCallWorksOnClosedSession`). A later call owns its transaction exactly when its unit was not listed
  (`Transactions.LaterCallOwnsExactly`).
- A rejection drops whatever token is in the field. It drops another token than the one it was sent with exactly when a
  login in between brought one and no rejection followed that login (`TokenRefresh.RejectionClearsOther`, input in
  `TokenRefresh.LateRejectionDropsNewToken`).
- Overlapping assign-zone commands can add the same zone twice (`ZoneAssignment.OverlapAddsTwice`): exactly when the
  rule as read lacks the zone and a command for the same role and zone finished in between
  (`ZoneAssignment.DoubledExactly`).
- A push sends the rules that were new when its plan was prepared; nothing is compared again, and the fingerprint guards
  do not see policies. A run stores a body twice exactly when the later request's plan was prepared before the earlier
  request (`PolicyRuns.StoredTwiceExactly`), and a request goes out although a comparison would by then say EXACT exactly
  when a policy with the rule's signature was added since the preparation (`PolicyRuns.SentAlthoughExact`). Inputs: two
  plans prepared before either is pushed, two pushes of one plan that overlap, two equal drafts in one plan
  (`PushedTwice.TwoPlansStoreTwice`, `PushedTwice.OverlappingPushesStoreTwice`, `PushedTwice.EqualDraftsStoreTwice`).
- A plan whose target is gone is marked as pushed and never sent (`PlanCommands.ExecutePlans.PushPlan`).

## Model

| member | source | states |
|---|---|---|
| Order.SortBySorts | src/app/core/hashers.py:35-37 | sorting by key gives an ordered rearrangement of the list |
| Order.SortByStable | src/app/modules/mapping/application/assign_zone_for_scope.py:134-137 | items with equal keys keep their order |
| Order.SortForgetsOrder | src/app/core/hashers.py:22-37 | with an injective key, two lists sort alike exactly when they hold the same items equally often |
| Order.SortedSetInjective | src/app/modules/execute/services/rule_values_resolver.py:229-230 | the sorted list of a set of names identifies the set |
| Permutations.PermutationOf | src/app/core/hashers.py:35-37 | lists with equal multisets are matched by a permutation of positions |
| Json.IntTextInjective | src/app/core/hashers.py:39 | decimal texts of integers, sign included, identify the integer |
| Json.IntTextReads | src/app/core/hashers.py:39 | the decimal text of an integer reads back as that integer |
| Json.QuoteDecodes | src/app/core/hashers.py:27-29 | an escaped string literal ends where it ends: literal and remainder can both be read back |
| Json.DumpsDecodes | src/app/core/hashers.py:27-29 | a serialised normalised value followed by anything can be read back, value and remainder |
| Json.DumpsInjective | src/app/core/hashers.py:22-29 | the sort key of two normalised values is equal exactly when the values are |
| JsonHash.NormalizeList | src/app/core/hashers.py:35-37 | two lists normalise alike exactly when some rearrangement matches item by item |
| JsonHash.NormalizeObject | src/app/core/hashers.py:32-33 | two dicts normalise alike exactly when they have the same keys and values that normalise alike |
| JsonHash.NormalizeCanonical | src/app/core/hashers.py:31-39 | for all nested values, equal normal forms if and only if equal up to list order at every depth, key order and `str()` of scalars |
| JsonHash.HashIdentifies | src/app/core/hashers.py:12-47 | without collisions, equal hashes if and only if the values are equivalent |
| JsonHash.HashIgnoresOrder | src/app/core/hashers.py:12-20 | equivalent values hash alike, whatever the hash |
| JsonHash.ScalarsAreTexts | src/app/core/hashers.py:39 | without collisions, a scalar hashes like a text exactly when the text is its `str()`: `None`, `True`, `False`, decimal digits |
| Fingerprint.AddressTextInjective | src/app/integrations/sdwan_csp_api/gateways/models.py:148-157 | dotted texts identify the address |
| Fingerprint.AddressTextIsDotted | src/app/integrations/sdwan_csp_api/gateways/models.py:148-157 | the text lists the four octets of the address, most significant first |
| Fingerprint.NetTextInjective | src/app/integrations/sdwan_csp_api/gateways/models.py:146-147 | network texts identify base and prefix length |
| Fingerprint.ServiceEquivalent | src/app/integrations/sdwan_csp_api/gateways/models.py:123-138 | service entries are equivalent exactly when all fields agree, ranges up to order and swapped ends, codes up to order |
| Fingerprint.BodyEquivalent | src/app/integrations/sdwan_csp_api/gateways/models.py:144-158 | type and payload fields together determine the payload: no absent field can pose as a text |
| Fingerprint.AddrEquivalent | src/app/integrations/sdwan_csp_api/gateways/models.py:139-161 | address entries are equivalent exactly when id, name and payload agree and parents agree up to order |
| Fingerprint.CatalogEquivalent | src/app/integrations/sdwan_csp_api/gateways/models.py:110-170 | catalog documents are equivalent exactly when zones, services, objects and networks are the same up to order |
| Fingerprint.FingerprintIdentifies | src/app/integrations/sdwan_csp_api/gateways/models.py:110-170 | without collisions, equal fingerprints if and only if the catalogs are the same up to list order |
| Fingerprint.FingerprintIgnoresOrder | src/app/integrations/sdwan_csp_api/gateways/models.py:110-112 | list order never changes the fingerprint, whatever the hash |
| Fingerprint.OrderedRangesExact | src/app/integrations/sdwan_csp_api/gateways/models.py:128-132 | among ranges with start not after end, the comparison is exact up to the order of the ranges |
| Fingerprint.OrderedCatalogIdentified | src/app/integrations/sdwan_csp_api/gateways/models.py:110-170 | without collisions, catalogs with ordered ranges share a fingerprint if and only if they are equal up to list order with every range compared exactly |
| Fingerprint.SwappedRangeCollides | src/app/integrations/sdwan_csp_api/gateways/models.py:128-132 | a service and the same service with a reversed range share a fingerprint, under any hash |
| CatalogModels.BroadcastInSpace | src/app/modules/execute/services/rule_values_resolver.py:53-58 | the last address of a network lies in the IPv4 space and not before its base |
| ParentQueries.ChunksPartition | src/app/integrations/sdwan_csp_api/client.py:503-508 | the chunks concatenate to the filter, each holds between one id and the limit, and all but the last are full |
| ParentQueries.FetchedInOrder | src/app/integrations/sdwan_csp_api/client.py:509-526 | the rows of the chunks are joined in chunk order |
| ParentQueries.DistinctInOrder | src/app/integrations/sdwan_csp_api/client.py:501 | dropping repeated filter ids keeps exactly the first occurrences, in order |
| ParentQueries.ChunkedQueryIds | src/app/integrations/sdwan_csp_api/client.py:502-532 | chunked and merged, only matching rows come back and every matching id exactly once |
| ParentQueries.MergeKeepsLast | src/app/integrations/sdwan_csp_api/client.py:528-532 | merging keeps exactly the last row of each id |
| ParentQueries.MergeKeepsPlaces | src/app/integrations/sdwan_csp_api/client.py:528-532 | merged rows stand where their ids were fetched first |
| ParentQueries.EdgeSurvivesMerge | src/app/integrations/sdwan_csp_api/client.py:502-532 | after a query a child is listed under a parent exactly when its last fetched row names that parent |
| ParentQueries.ChunkedQueryExact | src/app/integrations/sdwan_csp_api/client.py:498-532 | the rows equal those of one unlimited query if and only if no two matching rows share an id |
| ParentQueries.MergeDropsARow | src/app/integrations/sdwan_csp_api/client.py:528-532 | a server on which merging by id loses a matching row |
| Levels.LevelNext | src/app/integrations/sdwan_csp_api/gateways/catalog.py:249-266 | loading the children of the current groups keeps the level invariant |
| Levels.LevelsDone | src/app/integrations/sdwan_csp_api/gateways/catalog.py:249-268 | when no group is left to expand, exactly the reachable ids are loaded |
| CatalogLoading.SaveObjects | src/app/integrations/sdwan_csp_api/gateways/catalog.py:218-235 | the loop stores the batch in the keyed dictionary and returns the ids of its groups |
| CatalogLoading.SavedRows | src/app/integrations/sdwan_csp_api/gateways/catalog.py:218-235 | storing keeps one row per id and parents, invents none, and keeps the key of every old and new row |
| CatalogLoading.SavedLast | src/app/integrations/sdwan_csp_api/gateways/catalog.py:218-235 | of the rows with one id and the same parents, exactly the last one is stored |
| CatalogLoading.SavedPlaces | src/app/integrations/sdwan_csp_api/gateways/catalog.py:218-268 | stored rows stand where their id and parents came first |
| CatalogLoading.SavedTogether | src/app/integrations/sdwan_csp_api/gateways/catalog.py:218-268 | storing batch by batch is storing all rows at once |
| CatalogLoading.SavedEdges | src/app/integrations/sdwan_csp_api/gateways/catalog.py:218-235 | the dictionary has the ids of all rows stored, and all their edges |
| CatalogLoading.LoadExpandedGroups | src/app/integrations/sdwan_csp_api/gateways/catalog.py:193-268 | the loop over depths with its early exits computes the specified load |
| CatalogLoading.LoadsExactly | src/app/integrations/sdwan_csp_api/gateways/catalog.py:193-268 | also with several rows per object: fails if and only if four groups in a row are reachable from the requested ids, naming exactly the groups that end such a chain; otherwise exactly the reachable ids are loaded |
| CatalogLoading.EdgeLoadedExactly | src/app/integrations/sdwan_csp_api/gateways/catalog.py:237-268 | an edge of a loaded group survives exactly when its child was requested or was fetched last, in the query of some level, in a row that names the group |
| CatalogLoading.LoadShowsSurviving | src/app/integrations/sdwan_csp_api/gateways/catalog.py:193-268 | the loaded objects and edges, told from the server's rows and the requested ids alone: the reachable objects, and the edges into requested objects or named by a last fetched row |
| CatalogLoading.RequestedEdgesSurvive | src/app/integrations/sdwan_csp_api/gateways/catalog.py:237-247 | edges into requested objects are never lost |
| CatalogLoading.FullLoadKeepsEdges | src/app/integrations/sdwan_csp_api/gateways/catalog.py:237-240 | the full catalog loses no edge |
| CatalogLoading.MergeHidesEdge | src/app/integrations/sdwan_csp_api/gateways/catalog.py:249-257 | a server with an object in two rows of which one edge is lost |
| CatalogLoading.RequestedIsLoaded | src/app/integrations/sdwan_csp_api/gateways/catalog.py:114-132 | what the gateway asks for is loaded whenever the server has it; an empty list asks for nothing |
| CatalogLoading.LoadedShape | src/app/integrations/sdwan_csp_api/gateways/catalog.py:114-132 | a successful load is closed under the children of its groups and starts no walk over four groups |
| AddressGroups.LeavesResolver.constructor | src/app/integrations/sdwan_csp_api/gateways/address_group_resolver.py:21-28 | both dictionaries describe exactly the given objects |
| Collections.ByIdDenotes | src/app/integrations/sdwan_csp_api/gateways/address_group_resolver.py:22-24 | a dictionary by id holds exactly the ids that occur, and for each the last item listed with it |
| AddressGroups.ListedUnderMeaning | src/app/integrations/sdwan_csp_api/gateways/address_group_resolver.py:25-28 | the children of a parent are exactly the objects that name it |
| AddressGroups.ChildrenInOrder | src/app/integrations/sdwan_csp_api/gateways/address_group_resolver.py:25-28 | the children of a parent stand in catalog order, each as often as it names the parent |
| AddressGroups.IndexEdges | src/app/integrations/sdwan_csp_api/gateways/address_group_resolver.py:64-71 | the edges that resolution walks, told from the catalog list alone: from the group an id denotes to each other object whose parents hold its group id, or its own id when that is absent or zero |
| AddressGroups.IndexLeaves | src/app/integrations/sdwan_csp_api/gateways/address_group_resolver.py:39-87 | the leaves below an object are those of the catalog list |
| AddressGroups.LeavesResolver.ResolveLeaves | src/app/integrations/sdwan_csp_api/gateways/address_group_resolver.py:30-37 | computes the specified resolution from nesting level zero |
| AddressGroups.LeavesResolver.ResolveAt | src/app/integrations/sdwan_csp_api/gateways/address_group_resolver.py:39-87 | the recursion with its accumulating loop and early errors computes the specified resolution at any level |
| AddressGroups.ResolveSucceeds | src/app/integrations/sdwan_csp_api/gateways/address_group_resolver.py:39-87 | resolution succeeds if and only if the object is loaded, no chain of groups exceeds the remaining levels, and every group below has a child other than itself |
| AddressGroups.ResolveLeavesExact | src/app/integrations/sdwan_csp_api/gateways/address_group_resolver.py:71-87 | on success the leaves are exactly the loaded non-group objects reachable from the root |
| AddressGroups.ResolveNonEmpty | src/app/integrations/sdwan_csp_api/gateways/address_group_resolver.py:82-87 | a successful resolution never returns nothing |
| AddressGroups.ResolvedIsAcyclic | src/app/integrations/sdwan_csp_api/gateways/address_group_resolver.py:54-62 | on success nothing reachable lies on a cycle, self-listing groups aside |
| AddressGroups.ResolveErrors | src/app/integrations/sdwan_csp_api/gateways/address_group_resolver.py:45-87 | every error is true of the groups below: an unknown object is the one asked for, a nesting error names the group at the end of a chain that is too long and its level, a group without loaded children has none, a group without leaf children lists only itself |
| AddressGroups.FirstFailing | src/app/integrations/sdwan_csp_api/gateways/address_group_resolver.py:71-80 | the error of a group is that of its first child, in catalog order, that does not resolve |
| AddressGroups.ResolveInMemberOrder | src/app/integrations/sdwan_csp_api/gateways/address_group_resolver.py:71-80 | leaves come child by child in catalog order, repetitions kept, the group itself skipped |
| Collections.FlattenSplit | src/app/integrations/sdwan_csp_api/gateways/address_group_resolver.py:71-80 | leaf lists are joined in order |
| CatalogConversion.ConvertRows | src/app/integrations/sdwan_csp_api/gateways/catalog.py:299-383 | the kept rows in order, each with its own object: same id, parents and name, the kind and payload of the row, for a network the net that counts; left out are exactly the networks without a net |
| CatalogConversion.ConvertedMeaning | src/app/integrations/sdwan_csp_api/gateways/catalog.py:299-383 | an object is in the result exactly when it is the object of some row, told from the fields of the row and the networks |
| CatalogConversion.RowYields | src/app/integrations/sdwan_csp_api/gateways/catalog.py:299-383 | a row yields exactly the object that its own fields describe, and none exactly when no row of its network has a net |
| CatalogConversion.NetOfCounts | src/app/integrations/sdwan_csp_api/gateways/catalog.py:134-157 | the net of a network id is that of the last row with this id and a net |
| CatalogConversion.GetCatalogObjects | src/app/integrations/sdwan_csp_api/gateways/catalog.py:114-132 | the gateway answers an empty id list with nothing, refuses exactly on four nested groups and names those that end such a chain, and else gives the kept rows of exactly the objects that the requested ids reach |
| CatalogConversion.LoadedEdge | src/app/integrations/sdwan_csp_api/gateways/catalog.py:346-369 | group edges of the catalog are the loaded edges between different objects, without dropped networks |
| CatalogConversion.ReachAgrees | src/app/integrations/sdwan_csp_api/gateways/catalog.py:346-369 | up to kept objects, reachability in the catalog is reachability over the loaded edges |
| CatalogConversion.NestingNeverExceeded | src/app/integrations/sdwan_csp_api/gateways/address_group_resolver.py:54-62 | once loading succeeded, the resolver never raises the nesting error, whatever rows and edges were merged away |
| CatalogConversion.LeavesMatchLoaded | src/app/integrations/sdwan_csp_api/gateways/address_group_resolver.py:71-87 | the leaves of an object show exactly the kept non-group objects that the loaded edges reach |
| CatalogConversion.LeavesMatchServer | src/app/integrations/sdwan_csp_api/gateways/address_group_resolver.py:71-87 | leaves never exceed the server, and are all of it if and only if whatever lies below an edge that does not survive is still reached along surviving edges; which edges survive is told from the server's rows and the requested ids |
| CatalogConversion.SingleRowsReach | src/app/integrations/sdwan_csp_api/gateways/address_group_resolver.py:71-87 | with one row per id nothing is lost: loaded edges reach all that the server's edges reach |
| CatalogConversion.ResolvesIffUsable | src/app/integrations/sdwan_csp_api/gateways/catalog.py:346-356 | after a successful load an object resolves if and only if it was loaded and kept and every group below it keeps another member |
| CatalogConversion.DroppedNetworkShrinksGroup | src/app/integrations/sdwan_csp_api/gateways/catalog.py:346-353 | a server on which a group loses a member by conversion |
| RuleValues.SignatureInjective | src/app/modules/execute/services/rule_values_resolver.py:84-191 | equal signatures if and only if equal values |
| RuleValues.CoversIsInclusion | src/app/modules/execute/services/rule_values_resolver.py:78-183 | on valid values, one covers the other if and only if it matches every point the other matches |
| RuleValues.CoversReflexive | src/app/modules/execute/services/rule_values_resolver.py:78-183 | every value covers itself |
| RuleValues.CoversTransitive | src/app/modules/execute/services/rule_values_resolver.py:78-183 | coverage is transitive |
| RuleValues.CoversAntisymmetric | src/app/modules/execute/services/rule_values_resolver.py:78-191 | mutual coverage means the same signature |
| RuleValues.EmptyIcmpNotCovered | src/app/modules/execute/services/rule_values_resolver.py:156-169 | an ICMP value without codes, which checked catalogs exclude, would break the equivalence with inclusion |
| RuleMeaning.LeafValueMeaning | src/app/modules/execute/services/rule_values_resolver.py:402-450 | the value of a leaf object is valid and matches exactly the addresses or names the object stands for |
| RuleMeaning.AddressValuesMeaning | src/app/modules/execute/services/rule_values_resolver.py:368-385 | the values of an address operand list match exactly what the leaves below the operands stand for, and are empty only for an empty list |
| RuleMeaning.ServiceValuesMeaning | src/app/modules/execute/services/rule_values_resolver.py:513-545 | the values of a service are valid, not empty, and match exactly the traffic the service stands for |
| RuleMeaning.ZoneNamesMeaning | src/app/modules/execute/services/rule_values_resolver.py:359-366 | the zone set holds exactly the normalised names of the zones that the list denotes, an id denoting the last zone listed with it |
| RuleMeaning.DistinctKeepsValues | src/app/modules/execute/services/rule_values_resolver.py:557-564 | dropping repetitions keeps the set of values and invents no entry |
| RuleMeaning.DistinctKeepsFirst | src/app/modules/execute/services/rule_values_resolver.py:557-564 | exactly the first object with each value is kept, in the order of the list |
| RuleMeaning.ResolveKeepsMeaning | src/app/modules/execute/services/rule_values_resolver.py:283-301 | a resolved rule matches exactly the tuples that the rule matches in the catalog's own lists, with groups fully expanded and each id denoting the last entry listed with it |
| RuleErrors.ResolvesExactly | src/app/modules/execute/services/rule_values_resolver.py:283-472 | a rule resolves if and only if its zones and services are known, the port ranges of the services it denotes lie in order within 0..65535, and each address operand is listed, nested in bounds, without empty group or reversed range below; told from the catalog's lists |
| RuleErrors.MatchErrorExactly | src/app/modules/execute/services/rules_comparer.py:76-87 | a draft is a match error if and only if some operand is unusable, whatever rules exist |
| RuleErrors.ErrorNamesFirstUnusable | src/app/modules/execute/services/rule_values_resolver.py:283-472 | sources, destinations, services, then zones: the error is that of the first operand that is not usable, and what it says of that operand is true |
| RuleResolver.RuleValuesResolver.constructor | src/app/modules/execute/services/rule_values_resolver.py:268-281 | each zone and service id leads to the last entry listed with it and no other id to any; the groups are those of the catalog |
| RuleResolver.RuleValuesResolver.NormalizeZones | src/app/modules/execute/services/rule_values_resolver.py:359-366 | the loop computes the specified zone set, or the first unknown zone |
| RuleResolver.RuleValuesResolver.ResolveAddressValues | src/app/modules/execute/services/rule_values_resolver.py:368-385 | the loop computes the specified distinct values, or the first error |
| RuleResolver.RuleValuesResolver.ResolveServiceValues | src/app/modules/execute/services/rule_values_resolver.py:452-472 | the loop computes the specified distinct values, or the first error |
| RuleResolver.RuleValuesResolver.Resolve | src/app/modules/execute/services/rule_values_resolver.py:283-301 | addresses, services and zones resolve in that order and the first error is the result |
| RuleResolver.DistinctResolvedValues | src/app/modules/execute/services/rule_values_resolver.py:557-564 | the dictionary loop keeps the first entry of each signature |
| Coverage.AnalyzeValuesCoverage | src/app/modules/execute/services/rule_values_resolver.py:474-511 | the loop with early exit computes the specified evidence, or finds a value not covered |
| Coverage.AnalyzeRuleCoverage | src/app/modules/execute/services/rule_values_resolver.py:303-352 | field by field with early exit it computes the specified analysis |
| Coverage.CoverageDecided | src/app/modules/execute/services/rule_values_resolver.py:303-352 | the answer is yes if and only if actions agree, zone sets are contained, and every planned value lies within one existing value, with empty lists only against empty lists |
| Coverage.CoveredMatchesLess | src/app/modules/execute/services/rule_values_resolver.py:303-352 | a covered rule matches only tuples the existing rule matches |
| Coverage.CoverageIsPreorder | src/app/modules/execute/services/rule_values_resolver.py:303-352 | coverage between rules is reflexive and transitive, empty lists included |
| Coverage.EvidenceConserved | src/app/modules/execute/services/rule_values_resolver.py:486-511 | under each covering value stand exactly the reported planned values it is first to cover, once each and in planned order |
| Coverage.EvidenceOrdered | src/app/modules/execute/services/rule_values_resolver.py:502-511 | entries appear in the order in which planned values first need them |
| Coverage.ReportedAreStrict | src/app/modules/execute/services/rule_values_resolver.py:497-511 | a reported value lies strictly inside an existing one that lists it, an unreported one has an equal existing value |
| Coverage.ListedThoughEqual | src/app/modules/execute/services/rule_values_resolver.py:488-502 | a planned value is reported although an equal existing value exists if and only if a wider one precedes the first equal one |
| Coverage.ReportedExactly | src/app/modules/execute/services/rule_values_resolver.py:488-502 | a covered value is reported exactly when no existing value equals it or a wider one precedes the first equal one |
| Coverage.EqualValueReported | src/app/modules/execute/services/rule_values_resolver.py:488-502 | a range listed before its own host: the planned host is reported under the range |
| RuleEvidence.AddressEvidence | src/app/modules/execute/services/rule_values_resolver.py:368-400 | the entries of an address list are exactly those of the leaves below its operands, each with the one value that matches what its own object stands for, under that object's id, name and text |
| RuleEvidence.AddressesInOrder | src/app/modules/execute/services/rule_values_resolver.py:368-385 | entries come operand by operand, and within an operand leaf by leaf |
| RuleEvidence.ServiceEvidence | src/app/modules/execute/services/rule_values_resolver.py:452-472 | the entries of a service list are exactly the port ranges, code sets or protocols of the services it denotes, each under its own service |
| RuleEvidence.ServicesInOrder | src/app/modules/execute/services/rule_values_resolver.py:452-472 | entries come service by service, and within a TCP or UDP service range by range |
| RuleEvidence.EvidenceByField | src/app/modules/execute/services/rule_values_resolver.py:325-352 | each field reports the evidence of its own value lists, and nothing is reported without coverage |
| RuleEvidence.ActionsIdentified | src/app/modules/execute/services/rule_values_resolver.py:354-357 | REJECT and DROP are one action, no other two are, and ACCEPT stays itself |
| ExactSignature.ExactSignatureIdentifies | src/app/modules/execute/services/rule_values_resolver.py:225-235 | without collisions, equal signatures if and only if all six normalised fields are equal |
| Comparer.RulesComparer.constructor | src/app/modules/execute/services/rules_comparer.py:42-69 | resolved rules, index and exclusions describe the whole catalog in order |
| Comparer.RulesComparer.AddRule | src/app/modules/execute/services/rules_comparer.py:53-69 | one more rule extends either the resolved rules and the index, or the exclusions |
| Comparer.RulesComparer.CompareRule | src/app/modules/execute/services/rules_comparer.py:76-125 | the lookup and the scan with early return compute the specified verdict |
| Comparer.IndexesNext | src/app/modules/execute/services/rules_comparer.py:68-69 | adding an entry to its bucket keeps the index exact for every signature |
| Comparer.SignedRules | src/app/modules/execute/services/rules_comparer.py:89-98 | the index bucket of a draft is empty exactly when no rule has its normalised values, and else starts with the first such rule in catalog order |
| Comparer.CoveringRules | src/app/modules/execute/services/rules_comparer.py:105-119 | the scan finds the first rule in catalog order that covers the draft, or there is none |
| Verdicts.IndexRefinesScan | src/app/modules/execute/services/rules_comparer.py:76-125 | without collisions the indexed comparison gives the verdict of a plain scan by normalised values, with the first matching rule |
| Verdicts.ScanIsUnique | src/app/modules/execute/services/rules_comparer.py:76-125 | only one verdict, id and evidence included, is that of the plain scan |
| Verdicts.RulesPartitioned | src/app/modules/execute/services/rules_comparer.py:53-69 | compared rules are those that resolve, excluded ones those that do not with their reason, and no catalog rule is lost or doubled |
| Verdicts.PartitionInOrder | src/app/modules/execute/services/rules_comparer.py:53-69 | compared and excluded rules both stand in catalog order, and each rule is in exactly one of the two lists |
| Verdicts.CoveredIsContained | src/app/modules/execute/services/rules_comparer.py:105-119 | COVERED: same normalised action, and every tuple the draft matches is matched by the reported rule |
| Verdicts.ExactIsEqual | src/app/modules/execute/services/rules_comparer.py:89-103 | EXACT: same normalised action, and draft and reported rule match the same tuples |
| Verdicts.MoreRulesKeepVerdict | src/app/modules/execute/services/rules_comparer.py:76-125 | adding rules anywhere keeps EXACT exact, never turns COVERED into NEW, and leaves match errors unchanged |
| Verdicts.AppendKeepsVerdict | src/app/modules/execute/services/rules_comparer.py:89-119 | appending rules keeps the id of an exact match, and a cover with its evidence unless it becomes exact |
| Verdicts.OwnBodyIsExact | src/app/modules/execute/services/rules_comparer.py:89-103 | a rule with the draft's body makes the draft EXACT, exactly when the draft resolves |
| PolicyGateway.PolicyServer.CreatePolicy | src/app/modules/execute/adapters/sdwan_gateway.py:146-175 | the policy is stored unless the request failed on the server; the call returns the id or the error text, falling back to the type name |
| PolicyGateway.PushReadRoundTrip | src/app/modules/execute/adapters/sdwan_gateway.py:100-165 | a draft pushed as a policy and read back is the rule that was planned; each field of the request is that of the draft, the policy is active, without log and inspection, and placed at the target with the priority |
| PolicyGateway.PushRules | src/app/modules/execute/adapters/sdwan_gateway.py:123-186 | one outcome per plan rule in order, with an id exactly when the call returned and an error text otherwise; nothing is sent for an unknown target |
| PolicyGateway.PushedMeaning | src/app/modules/execute/adapters/sdwan_gateway.py:143-184 | afterwards the server holds exactly the old policies and those of the requests it stored |
| PolicyGateway.StoredIsExact | src/app/modules/execute/adapters/sdwan_gateway.py:100-186 | after any push with any failures, every stored draft that resolves compares as EXACT |
| PolicyGateway.PushKeepsVerdicts | src/app/modules/execute/adapters/sdwan_gateway.py:123-186 | a push never loses an EXACT or COVERED verdict of any draft and changes no match error |
| PlanSteps.StepKeepsWellFormed | src/app/modules/execute/application/use_cases/push_execute_plan_rules.py:60-124 | every step of every command keeps pushes within their plans: the rows they send exist, were new when prepared, and are sent in order |
| PlanSteps.PlansKeptByStep | src/app/modules/execute/application/use_cases/push_execute_plan_rules.py:108-124 | no step changes a draft or a verdict of a stored plan, drops a plan, or takes back its mark |
| PlanSteps.MarkExecutes | src/app/modules/execute/application/use_cases/push_execute_plan_rules.py:108 | marking a push marks its plan, which is what later checks read |
| PlanCommands.ExecutePlans.PreparePlan | src/app/modules/execute/application/use_cases/prepare_execute_plan.py:112-139 | the loop stores one row per draft, in order, with the verdict against the policies of that moment |
| PlanCommands.ExecutePlans.PushPlan | src/app/modules/execute/application/use_cases/push_execute_plan_rules.py:60-124 | missing plan, pushed plan, no rule to push and failing guards are reported in that order with nothing changed; otherwise exactly the new and pending rules are sent in order, each answered with the id or the error of its request, each stored as succeeded with that id or failed with that error, all other rows untouched, and the policies gain exactly what was stored |
| PlanCommands.RecordedMeaning | src/app/modules/execute/application/use_cases/push_execute_plan_rules.py:115-124 | recording gives each row sent its outcome and changes no other row, no draft and no verdict |
| PlanCommands.PushPlanIsARun | src/app/modules/execute/application/use_cases/push_execute_plan_rules.py:60-124 | the uninterrupted push is one of the runs of check, list, mark, send and record steps |
| PolicyRuns.PlanContent | src/app/modules/execute/application/use_cases/prepare_execute_plan.py:117-139 | in every state of a run a plan holds the drafts of its preparation and their verdicts against the policies of that moment |
| PolicyRuns.PreparedBeforeStored | src/app/modules/execute/application/use_cases/prepare_execute_plan.py:102-134 | when two requests of a run store one body, the plan of the later one was prepared before the earlier request, whatever catalogs the preparations loaded |
| PolicyRuns.StoredStaysExact | src/app/modules/execute/services/rules_comparer.py:89-103 | a stored body is EXACT in every later state, under every catalog in which it resolves |
| PolicyRuns.CheckedBeforeMarked | src/app/modules/execute/application/use_cases/push_execute_plan_rules.py:60-69 | every push of a plan checked it before any push of it was marked |
| PolicyRuns.RowSentTwice | src/app/modules/execute/application/use_cases/push_execute_plan_rules.py:60-113 | a plan rule sent twice was sent by two pushes, the second of which had checked the plan before the first one marked it |
| PolicyRuns.RecordedOutcome | src/app/modules/execute/application/use_cases/push_execute_plan_rules.py:115-124 | over every interleaving, what a push records is for the row that one of its requests sent: succeeded with the id exactly when that request returned one, else failed with its error; nothing else changes |
| PolicyRuns.ListsPending | src/app/modules/execute/application/use_cases/push_execute_plan_rules.py:71-77 | a push lists exactly the rules that were new when prepared and are pending at that moment |
| PolicyRuns.RecordedNotListed | src/app/modules/execute/application/use_cases/push_execute_plan_rules.py:71-77 | a rule whose outcome was recorded is listed by no later push of the plan |
| PolicyRuns.PoliciesConserved | src/app/modules/execute/adapters/sdwan_gateway.py:143-184 | over every interleaving the policies are those of the start, one per storing request, and those others added, counted with multiplicity |
| PolicyRuns.StoredTwiceExactly | src/app/modules/execute/application/use_cases/push_execute_plan_rules.py:60-114 | a run stores a body twice if and only if two requests store it and the plan of the later one had been prepared before the earlier one |
| PolicyRuns.ExclusiveStoresOnce | src/app/modules/execute/application/use_cases/push_execute_plan_rules.py:60-114 | when no other push stores between a preparation and its requests, a body is stored twice only by two rules of one plan |
| PolicyRuns.AtMostOncePerBody | src/app/modules/execute/application/use_cases/push_execute_plan_rules.py:60-114 | exclusive runs with distinct drafts add at most one policy per body, besides those of others |
| PolicyRuns.ExactSince | src/app/modules/execute/services/rules_comparer.py:89-103 | a draft that was new before is EXACT now if and only if a policy with its signature was added since |
| PolicyRuns.SentAlthoughExact | src/app/modules/execute/application/use_cases/push_execute_plan_rules.py:108-114 | when a rule is sent, comparing it again would say EXACT if and only if some step since the preparation of its plan added a policy with its signature |
| PushedTwice.TwoPlansStoreTwice | src/app/modules/execute/application/use_cases/push_execute_plan_rules.py:60-114 | two plans prepared before either is pushed: the draft is stored twice, although after the first push it compares as EXACT |
| PushedTwice.OverlappingPushesStoreTwice | src/app/modules/execute/application/use_cases/push_execute_plan_rules.py:60-114 | two pushes that check one plan before either marks it: its rule is stored twice |
| PushedTwice.EqualDraftsStoreTwice | src/app/modules/execute/adapters/sdwan_gateway.py:143-165 | two drafts with one body in one plan: the body is stored twice |
| PolicyCatalog.CollectIds | src/app/modules/execute/adapters/sdwan_gateway.py:89-98 | zone, service and address ids asked for are exactly those of the drafts and those that some existing rule lists in its source or destination zones, services, source or destination addresses |
| PolicyCatalog.CollectedIdsCoverRules | src/app/modules/execute/adapters/sdwan_gateway.py:89-111 | every zone, service and address operand of every existing rule is requested |
| PolicyCatalog.UnknownMeansAbsent | src/app/integrations/sdwan_csp_api/gateways/address_group_resolver.py:45-49 | a requested operand is known to the resolver exactly when the server has it and its network was not dropped |
| PolicyCatalog.NoRuleFailsForNesting | src/app/modules/execute/services/rule_values_resolver.py:374-379 | if the objects loaded, no rule is excluded and no draft rejected for group nesting |
| ServerMeaning.ListedIsFound | src/app/modules/execute/services/rule_values_resolver.py:368-385 | loaded operands stand for exactly the kept objects that the loaded edges reach |
| ServerMeaning.KnownIsListedOrLost | src/app/modules/execute/services/rule_values_resolver.py:368-385 | what the server shows below operands is what the loaded operands stand for and the objects behind lost edges |
| ServerMeaning.OnServerIsKnownOrHidden | src/app/integrations/sdwan_csp_api/gateways/catalog.py:346-353 | a list on the server is what the server shows and the unreported nets of dropped networks |
| ServerMeaning.ShowsStands | src/app/integrations/sdwan_csp_api/gateways/catalog.py:299-383 | a converted object stands for exactly the addresses or names of its row, read off the row: base and size of the net, both bounds, the host, the normalised name |
| ServerMeaning.FieldKeptExactly | src/app/integrations/sdwan_csp_api/gateways/catalog.py:346-353 | a list contained in another in the catalog is contained on the server, for all unreported nets, if and only if its dropped networks are dropped below the other too or the other shows every address, and the server shows below the other what does not survive below it; the condition speaks of the server and the requested ids only |
| ServerMeaning.NothingLost | src/app/modules/execute/services/rule_values_resolver.py:368-385 | with one row per id nothing is lost below loaded operands |
| ServerMeaning.RulesKeptExactly | src/app/modules/execute/services/rule_values_resolver.py:303-352 | for a draft within a rule field by field, containment on the server holds if and only if the condition holds for both address fields |
| ServerMeaning.CoveredOnServer | src/app/modules/execute/services/rules_comparer.py:105-119 | COVERED: same action, and the server's tuples of the draft are those of the rule if and only if the condition holds; broken rules in the catalog do not matter |
| ServerMeaning.ExactOnServer | src/app/modules/execute/services/rules_comparer.py:89-103 | EXACT: each direction of equal traffic on the server holds if and only if the condition holds in that direction |
| MisleadingMatch.ExactButWider | src/app/integrations/sdwan_csp_api/gateways/catalog.py:346-353 | a server, a rule and a draft: the load succeeds, the verdict is EXACT, and the draft may match more on the server |
| GroupExpansion.QueueChildren | src/app/modules/canonical/services/group_expansion.py:51-56 | parents gain exactly the listed memberships and exactly the unseen children become pending |
| GroupExpansion.Collect | src/app/modules/canonical/services/group_expansion.py:40-41 | each id keeps the first object fetched for it |
| GroupExpansion.ExpandBatch | src/app/modules/canonical/services/group_expansion.py:32-56 | one batch extends the expanded set by the pending ids and keeps the expansion invariant |
| GroupExpansion.ExpandObjectGroups | src/app/modules/canonical/services/group_expansion.py:17-58 | on cyclic membership too it ends, fetches no id twice, collects exactly the known objects reachable from the seeds, and maps each child to exactly the reached groups that list it |
| GroupExpansion.ExpansionComplete | src/app/modules/canonical/services/group_expansion.py:32-33 | when nothing is pending, what was fetched is exactly what the seeds reach |
| TraceGraph.SortByPositionSorted | src/streamlit_app/views/trace_rules.py:461 | the members of a group are a rearrangement in position order |
| TraceGraph.SortByPositionStable | src/streamlit_app/views/trace_rules.py:461 | members at the same position keep their order |
| TraceGraph.AddParents | src/streamlit_app/views/trace_rules.py:462-463 | the reverse map gains exactly the edges of this group |
| TraceGraph.BuildMemberGraph | src/streamlit_app/views/trace_rules.py:448-464 | exactly the groups have entries: their own members, rearranged in position order; the two maps describe the same edges |
| TraceGraph.BuildRuleIndexes | src/streamlit_app/views/trace_rules.py:476-489 | zones and objects map to exactly the rules that target them, operand ids to the rule of the last operand with the id |
| TraceFilter.OverlapIsSharedLine | src/streamlit_app/components/trace/view_model.py:185-195 | a rule and an issue overlap if and only if they share a line; an issue without a start line has none, one without an end line has one |
| TraceFilter.IndexIssuesByRule | src/streamlit_app/views/trace_rules.py:504-522 | each rule lists exactly the issues whose lines overlap the rule's own |
| TraceFilter.CollectObjectKeys | src/streamlit_app/views/trace_rules.py:1147-1155 | the forward worklist ends and yields exactly the objects and members below the roots |
| TraceFilter.CollectRuleEntityKeys | src/streamlit_app/views/trace_rules.py:1132-1158 | the keys are exactly the entities the rule depends on |
| TraceDeepLink.AncestorObjectIds | src/streamlit_app/views/trace_rules.py:525-538 | the backward worklist ends and yields exactly the objects from which the given one is reachable |
| TraceDeepLink.RuleResult | src/streamlit_app/views/trace_rules.py:552-553 | for a rule link the answer is right if and only if the rule is in scope |
| TraceDeepLink.OperandResult | src/streamlit_app/views/trace_rules.py:554-556 | for an operand link the answer is right if and only if one rule at most holds the operand id |
| TraceDeepLink.ObjectResult | src/streamlit_app/views/trace_rules.py:559-585 | for object and member links the rules found backwards are exactly those that depend on the entity forwards |
| TraceDeepLink.IssueResult | src/streamlit_app/views/trace_rules.py:586-599 | for an issue link the answer is right if and only if the first issue with the id hits every rule that any issue with the id hits |
| TraceDeepLink.UniqueIssuesAnswerable | src/streamlit_app/views/trace_rules.py:586-599 | distinct issue ids always meet that condition |
| TraceDeepLink.RuleIdsForDeepLink | src/streamlit_app/views/trace_rules.py:541-600 | for all six kinds of entity, on any graph, the filter returns exactly the rules whose forward keys contain the entity, if and only if the rule is in scope, the operand id belongs to one rule at most, or the first issue speaks for all with its id |
| TraceTree.TreeWalk.Walk | src/streamlit_app/views/trace_rules.py:991-1013 | a visit ends on any graph and adds one line plus one per member of each group it expands; the lines added have their members under them in order, at the right depth, with the mark that the lines above and before them call for |
| TraceTree.AllGroupsExpanded | src/streamlit_app/views/trace_rules.py:1005-1013 | at the end exactly the groups reachable from the root were expanded |
| TraceTree.TreeEntities | src/streamlit_app/views/trace_rules.py:988-1012 | the entities of the tree are exactly the object and member keys of the forward worklist from the root |
| TraceTree.ObjectTreeLines | src/streamlit_app/views/trace_rules.py:981-1016 | the whole tree: under each group shown plain stand its members in position order, one level deeper, under other lines nothing; a line is a cycle exactly when its object is above it, reused exactly when it is not above but was expanded before; each reachable group is shown plain exactly once; entities as in the forward worklist |
| TreeShape.LineAdded | src/streamlit_app/views/trace_rules.py:991-1004 | the next line, marked by what is above it and what was expanded before, keeps every line rightly placed and marked |
| ClientRegistry.InvStep | src/app/integrations/sdwan_csp_api/client_provider.py:57-89 | every step of any frame or sweep keeps exactly one party responsible for closing each client |
| ClientRegistry.StepAdvances | src/app/integrations/sdwan_csp_api/client_provider.py:57-89 | each step brings its frame nearer its end and moves no other frame |
| ClientRegistry.RunKeepsInv | src/app/integrations/sdwan_csp_api/client_provider.py:57-89 | the invariant holds in every state of every run from the empty registry |
| ClientRegistry.ClosedExactlyOnce | src/app/integrations/sdwan_csp_api/client_provider.py:52-89 | in every interleaving, identity keys reused, no client is closed twice, and at quiescence each was closed once and none is registered |
| TokenRefresh.ApplyKeepsInv | src/app/integrations/sdwan_csp_api/client.py:103-189 | every step keeps the link between lock, token field, requests in flight and the login count |
| TokenRefresh.TokenProtocol | src/app/integrations/sdwan_csp_api/client.py:103-189 | in every interleaving each request carries a token, one task at most logs in and only while no token is there, and logins exceed token resets by one at most |
| TokenRefresh.StepAdvances | src/app/integrations/sdwan_csp_api/client.py:103-189 | a request that begins is sent at once exactly when a token is there; every other step brings its own request nearer its end and moves no other |
| TokenRefresh.SomeoneCanStep | src/app/integrations/sdwan_csp_api/client.py:103-110 | no deadlock: while a request is under way, some request can take a step |
| TokenRefresh.TokenAfter | src/app/integrations/sdwan_csp_api/client.py:103-189 | over any steps the token field holds what the last login brought, or what was there, exactly while no rejection followed |
| TokenRefresh.RejectionClearsOther | src/app/integrations/sdwan_csp_api/client.py:184-189 | a rejection clears a token other than the one its request was sent with if and only if a login in between brought another and no rejection followed that login |
| TokenRefresh.LateRejectionDropsNewToken | src/app/integrations/sdwan_csp_api/client.py:184-189 | a reachable state in which a rejection of an old token clears a newer one |
| Pagination.FetchAll | src/app/integrations/sdwan_csp_api/client.py:439-484 | with finitely many cursors the loop ends with a result of a chain of requests that repeats none: success is the concatenation of the pages along the cursors and its length is the total of every page, each error has its cause at the last page |
| Pagination.ConcatSplit | src/app/integrations/sdwan_csp_api/client.py:448-484 | the items of the pages are joined in page order |
| Pagination.AnswerUnique | src/app/integrations/sdwan_csp_api/client.py:676-711 | the answers of the server allow only one result, success or error: no chain that ended can go on, and it ended in one way |
| Transactions.Runtime.EnterUnit | src/app/infrastructure/db/uow.py:17-20 | opens a session unless one is there to be reused |
| Transactions.Runtime.ExitUnit | src/app/infrastructure/db/uow.py:22-33 | rolls back on error and closes an owned session, and always clears the flag |
| Transactions.Runtime.SetNestedSessions | src/app/infrastructure/db/transactional.py:12-21 | every listed unit holds the owner's session afterwards |
| Transactions.Runtime.Transactional | src/app/infrastructure/db/transactional.py:25-47 | the wrapper, with its writes to the shared units, computes the specified call |
| Transactions.NestedOnlyWorks | src/app/infrastructure/db/transactional.py:40-43 | a call tree below a shared session opens, commits and closes nothing, works in that session once for each work action before an escaping one, and raises exactly when an exception escapes its body |
| Transactions.OutermostOwns | src/app/infrastructure/db/transactional.py:30-43 | for every well-nested tree, told from the tree alone: the outermost call opens one session, does all work of the tree up to the escaping action in it, and closes it once, after one commit when it succeeds and writes, after a rollback when an exception escapes its body or its commit fails; it raises in exactly these cases |
| Transactions.UnlistedUnitCommitsAlone | src/app/infrastructure/db/transactional.py:16-38 | a unit that is not listed commits its own session although the outer call fails |
| Transactions.ReenteredUnitClosesEarly | src/app/infrastructure/db/uow.py:28-33 | a nested unit entered again below itself closes the shared session early |
| Transactions.UntouchedKept | src/app/infrastructure/db/transactional.py:12-45 | a call leaves alone every unit that its tree nowhere mentions |
| Transactions.LaterCallWorksOnClosedSession | src/app/infrastructure/db/uow.py:28-33 | listed units keep the closed session, and a later call of theirs opens and commits nothing and works on it |
| Transactions.LaterCallOwnsExactly | src/app/infrastructure/db/transactional.py:30-43 | with nested lists contained in the outer one, a later call of a unit without a session opens, commits and closes its own if and only if the unit was not listed |
| ZoneAssignment.MatchingMeaning | src/app/modules/mapping/application/assign_zone_for_scope.py:128-144 | matching results are exactly the zone results of the scope that are matched to the zone |
| ZoneAssignment.FallbackInRange | src/app/modules/mapping/application/assign_zone_for_scope.py:219-235 | when no rule lacks the zone, a matching result exists: the `[0]` fallback is in range |
| ZoneAssignment.AssignCovers | src/app/modules/mapping/application/assign_zone_for_scope.py:49-92 | afterwards every rule has an operand of the role that resolves to the zone, and nothing stored before is lost |
| ZoneAssignment.AssignAddsExactlyMissing | src/app/modules/mapping/application/assign_zone_for_scope.py:176-217 | exactly the rules read without the zone get exactly one operand |
| ZoneAssignment.AssignFails | src/app/modules/mapping/application/assign_zone_for_scope.py:146-174 | a command fails exactly when some rule lacks the zone, no manual result for it exists and the new id is taken |
| ZoneAssignment.AssignChooses | src/app/modules/mapping/application/assign_zone_for_scope.py:146-174 | the result is the oldest manual one; without one the oldest matching when no rule lacks the zone, else a new manual one with the given id and time |
| ZoneAssignment.AssignOperands | src/app/modules/mapping/application/assign_zone_for_scope.py:176-199 | returned is one operand for each rule without the zone, in rule order, with that rule, role and result |
| ZoneAssignment.OtherRolesKept | src/app/modules/mapping/application/assign_zone_for_scope.py:176-217 | operands of all other roles stay as they are |
| ZoneAssignment.AssignTwice | src/app/modules/mapping/application/assign_zone_for_scope.py:62-73 | a second command for the same direction and zone succeeds and changes nothing |
| ZoneAssignment.AssignKeepsWellFormed | src/app/modules/mapping/application/assign_zone_for_scope.py:146-174 | ids stay distinct and each zone keeps at most one manual result |
| ZoneAssignment.RunKeepsInv | src/app/modules/mapping/application/assign_zone_for_scope.py:49-92 | over every interleaving of commands, manual results stay unique and no rule, operand or result is lost |
| ZoneAssignment.FinishedStays | src/app/modules/mapping/application/assign_zone_for_scope.py:49-92 | once a command finished, every rule keeps its zone whatever else runs |
| ZoneAssignment.DoubledExactly | src/app/modules/mapping/application/assign_zone_for_scope.py:54-92 | over every run between the read and the finish of a command: it gives a rule that has the zone a further operand if and only if the rule as read lacks the zone and a command for the same role and zone finished in between |
| ZoneAssignment.OverlapAddsTwice | src/app/modules/mapping/application/assign_zone_for_scope.py:54-67 | a run of two overlapping commands that add the same zone twice to a rule |
| ZoneAssignment.AssignZoneForScope.AddZoneOperands | src/app/modules/mapping/application/assign_zone_for_scope.py:176-199 | the loop stores one new operand per given rule, in order |
| ZoneAssignment.AssignZoneForScope.GetOrCreateManualResult | src/app/modules/mapping/application/assign_zone_for_scope.py:146-174 | reuses the first manual result, else stores a new one, else fails without a trace |
| ZoneAssignment.AssignZoneForScope.Execute | src/app/modules/mapping/application/assign_zone_for_scope.py:49-246 | missing scope, missing rules and unknown zone are reported in that order with nothing stored; on success every rule has the zone in the source role for a source direction and in the destination role for a destination direction, exactly the rules without it got one operand, other roles are unchanged, and the result is chosen as stated |
| ZoneAssignment.AssignIsAssigned | src/app/modules/mapping/application/assign_zone_for_scope.py:54-126 | the computed assignment is the one told without the functions that compute it |

## Left out

- First-match order of policies, activation flags and NAT: the comparer ignores them, so nothing is claimed about whole policies.
- Coverage by a union of several existing values: the code needs one covering value per planned value.
- HTTP, TLS, the database, HTTP schemas, dependency containers and the user interface: replaced by finite maps and replies.
- SHA-256, Python's `repr`, regular expressions, `strip` and lower-casing: parameters of the model; a lone surrogate, which cannot be encoded before hashing, is not modelled.
- Message texts, log lines and `match_info`: errors are modelled by kind and object id.
- Parsing of IPv4 texts and schema validation: addresses are integers below 2^32, networks have an aligned base.
- Address objects whose unused payload fields are filled: the loader never builds them.
- Dict keys that are not strings and dicts whose keys collide as text: no caller hashes them.
- `asyncio.gather` over chunks: the chunks are fetched in order against a server that does not change meanwhile.
- Merging of policies by id chunks, zones and networks queries: the same shapes as the address-object queries.
- Task cancellation inside `_release` and exceptions raised by `aclose`: each close counts as done.
- Direct calls of `login` on a client that also sends requests: the registry uses such a client only for discovery.
- `flush`, `refresh` and explicit rollbacks inside a body: work on a session is one kind of event.
- `select_direct` and other edits of results: uniqueness of manual results is claimed for assign-zone commands alone.
- The cache behind the mapping scopes: expiry is not modelled, and the part of a command after the zone lookup runs without interruption, as with the in-process store.
- Failing reads and writes of the plan store, the report and the commit after a push; the fingerprint guards of a push are a flag or an aborted push.
- CatalogLoading.LoadsExactly: assumes that the rows of one id agree on being a group; else the merge by id alone would decide whether members are asked for.
- CatalogConversion.NestingNeverExceeded: is stated for rows of one object that differ only in their parents and for groups whose `addr_group` equals the object id, as the catalog documents.
- Policies that others remove or edit between the steps of a run, and a policy list that changes while its pages are read.
- A run is about the policies of one target; plans for other targets neither read nor add them.
- Transactions.LaterCallOwnsExactly: assumes that nested calls mention only units the outer call lists; which nested calls run otherwise depends on exceptions.
- Pagination.FetchAll: its termination assumes finitely many cursors, which no server is bound to.
- TraceTree.ObjectTreeLines: assumes that exactly the groups have member lists, as the member graph is built.
