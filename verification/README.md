# gwlint: a verified model of its resolution engine

gwlint lints Kubernetes Gateway API and Envoy Gateway manifests. Its checks rest on a resolution engine: which routes
attach to which listeners, which policies reach which routes, when two hostnames can meet, when two matches are the
same match, and who reports a conflict that several objects share. This project models that engine in Dafny and
proves what its code, comments and tests promise of it, for every manifest set.

A manifest set is a `seq<Object>`, one constructor per Go type and served version (`Manifests`). A Go pointer is an
`Option`; a policy is known by its position, as the code knows it by its address. Every loop that is modelled is a
method with a loop, proved equal to a specification function or against the property itself; what is promised is
then proved about those functions. Ranging over a Go map takes the keys in an arbitrary order
(`Sorting.ListInAnyOrder`), so a result stated as an equality holds for every order. `sort` is specified
as the one ascending arrangement of a bag under a strict total order (`Sorting.Ordered`), with Go's order on strings
spelled out (`Strings.Less`).

The modules that follow the source state its tables, defaults and guards as functions. The modules whose names end in
`Terms` state what comes of them, over the raw fields and in literals: which parentRef is to which object, which kinds
which protocol carries, which pairs are reported.

| Files | What they model |
|---|---|
| `Strings`, `Bags`, `Sorting`, `Counting` | string order, splitting and joining; bags; sorting; counting over whole runs |
| `Routes`, `Parents` | routes, rules, parentRefs, listeners and their index |
| `Attach` | when a listener accepts a route, and when hostnames meet |
| `RouteMatch`, `MatchMeaning` | the key of an HTTPRouteMatch, and where two matches share one |
| `RequestPaths`, `MatchRequests` | path prefixes, and what equal keys mean for requests |
| `ConflictingRouteMatch`, `ConflictingRouteRun` | the pairwise route conflict and the count over a run |
| `MutualConflict`, `Tiebreak` | when a conflict is mutual, and who loses the last tiebreak |
| `HostPrecedence`, `MatchPrecedence` | where hostname specificity decides, and where the rank of matches does |
| `AmbiguousRoutes` | what a conflict says about requests, and what it misses |
| `ListenerNames`, `AttachmentChecks`, `AttachmentDiagnosis` | the five attachment checks, and how they divide failures between them |
| `PolicyCoverage`, `PolicyReach`, `ColdStartCoverage` | policy coverage, what it reaches, and its second implementation |
| `GatewayServesNoRoutes`, `HealthCheckWithoutFailover` | the third hierarchy walk, and a check built on coverage |
| `ConflictingListeners`, `ListenerConflicts` | grouping listeners, and what the findings are whatever the order |
| `ConflictingPolicies` | policies claiming one slot, and the count over a run |
| `Certificates`, `MissingReferenceGrant`, `MissingCertificateGrant` | certificate references, the two grant decisions and their agreement |
| `Scanned` | the scan summary and the merging of contexts |
| `ReferenceTerms`, `ListenerTerms`, `MatchTerms` | routes, parentRefs, listeners and matches in terms of the fields a manifest states, defaults read in |
| `ConflictTerms`, `CoverageTerms`, `FindingTerms`, `PolicyTerms`, `GrantTerms`, `ScanTerms` | what each check reports, in the same terms |
| `PrecedenceTerms`, `OrderTerms` | what precedence comes to, and the order in which everything is listed |

`dafny verify dfyconfig.toml` checks the whole project.

## Where the code and its documentation differ

The model follows the code.

- `pkg/gatewayapi/attach.go:91-94` says a wildcard covers exactly one label; the code, like the comment at line 127
  and the Gateway API, lets it stand for one or more. `Attach.OneLabelReadingHoldsIff` says where the two differ,
  `Attach.WildcardSpansTwoLabels` that they do for every wildcard.
- `pkg/gatewayapi/routematch.go:18` calls the key equal for exactly the matches that select the same requests. That
  holds on well-spelled matches (`MatchRequests.EqualKeysIffSameRequests`) and fails in three ways. Values can hold a
  separator: `MatchMeaning.KeyIdentifiesIffBarePath` says exactly which keys have one reading. Names can be given twice,
  and a prefix can end in a slash (`MatchRequests.PrefixSpelledTwice`): `MatchRequests.EqualKeysSufficeIff`,
  `MatchRequests.PromiseKeptIffWellSpelled` and `MatchRequests.PromiseKeptAmongAllIff` say exactly which separator-free
  matches still keep the promise.
- `pkg/templates/conflictingroutematch/template.go:1-15` promises to report only what nothing decides. A wildcard both
  routes claim is reported also where a more specific hostname of either decides every host the listener serves, and
  an empty name in both lists also on a listener that names a host, where it meets nothing
  (`HostPrecedence.EmptyClaimSpuriousIff`): `HostPrecedence.OpenIffUndecided` and `AmbiguousRoutes.AmbiguousIff` have
  the exact condition, `HostPrecedence.WildcardReportedThoughDecided` an instance.
- Lines 270-271 there say that anything short of an identical match leaves a comparison that decides. It does not:
  different matches of equal rank can be met by one request, as two of different headers are
  (`AmbiguousRoutes.DifferentHeadersAreMissed`). `MatchPrecedence.LeftTiedIff` says exactly when two routes leave a
  request tied, `AmbiguousRoutes.SilentIffNoMatchShared` which tied pairs the check is silent about. Prefixes that
  differ by the trailing slash select the same requests and share no key (`AmbiguousRoutes.TrailingSlashIsMissed`);
  the Gateway API's count of characters ranks them.
- Lines 95-98 of that file say the reported route loses the alphabetical tiebreak. It does unless one namespace continues the
  other below the slash, as "a-b" does "a" (`Tiebreak.ReportOrderIsTiebreakIff`).
- The attachment checks are said to divide the failures between them. They never overlap except for one pair, which
  does exactly as `AttachmentDiagnosis.PairOverlapsIff` says. Over several listeners a failure can fall between them:
  `AttachmentDiagnosis.SilentIff` is the exact condition, `AttachmentDiagnosis.SeveralListenersCanBeSilent` an instance.
- Reporting each pair of routes once relies on conflicts being mutual. They are if and only if same-named listeners
  that admit different routes agree on the hostname (`MutualConflict.MutualIffHostsAgree`); unique listener names are
  enough, but not needed (`ConflictingRouteRun.UniqueNamesAgree`).
- `GatewaysAndListenerSets` and `ListenersOf` see v1 Gateways only, while other checks also read v1beta1:
  `AttachmentDiagnosis.BetaGatewayLooksDangling`.
- `gateway-serves-no-routes` attributes a ListenerSet to a Gateway by namespace and name alone, policy coverage also by
  group and kind: `GatewayServesNoRoutes.ReportsIffUncovered` has the exact difference,
  `GatewayServesNoRoutes.ForeignSetSilences` a family of instances.
- health-check-without-failover asks whether a policy displaces another on the whole route, fqdn-backend-cold-start
  whether it does on one rule: `HealthCheckWithoutFailover.WholeRouteDiffersFromRuleIff` says when the answers differ.

## Model

| member | source | states |
|---|---|---|
| `Routes.AsRoute` | pkg/gatewayapi/route.go:82-112 | every route kind at every served version flattens to the one route value the checks read, and nothing else is a route |
| `Routes.HTTPBackendRefs` | pkg/gatewayapi/route.go:114-122 | the flat backendRefs of an HTTPRoute are those of its rules in order, each tagged with its rule |
| `Routes.GRPCBackendRefs` | pkg/gatewayapi/route.go:124-132 | the same for GRPCRoute |
| `Routes.StreamBackendRefs` | pkg/gatewayapi/route.go:134-182 | the same for TCP, TLS and UDP routes, whose six Go rule types have the same two fields |
| `Routes.Named` | pkg/gatewayapi/route.go:184-190 | tags every backendRef of a rule with the rule name, keeping order |
| `Routes.ListRoutes` | pkg/gatewayapi/route.go:67-75 | the routes of the set in its order, skipping everything that is not a route |
| `Routes.RoutesOfAre` | pkg/gatewayapi/route.go:67-75 | something is among the routes of the set if and only if some object of the set is that route |
| `Routes.RulesOf` | pkg/gatewayapi/rules.go:45-72 | the rules of a route kept apart, at every kind and version |
| `Routes.RuleIndexIsPosition` | pkg/gatewayapi/rules.go:74-152 | every rule carries its own position in spec.rules, and objects that are not routes have no rules |
| `Routes.RuleNamesOf` | pkg/gatewayapi/rulenames.go:20-55 | the rule names are exactly the names of the rules RulesOf lists, in order |
| `Routes.RulesAndRouteAgree` | pkg/gatewayapi/rules.go:45-152 | for every kind and version the flat backendRefs are the in-order flattening of the rules, tagged with rule names: the two readings of a route agree |
| `Parents.ParentsOf` | pkg/gatewayapi/parent.go:27-49 | one parent per parentRef, in order, with group, kind and namespace defaulted and the section kept |
| `Parents.GatewaysAndListenerSets` | pkg/gatewayapi/parent.go:72-87 | the identities of exactly the v1 Gateways and ListenerSets; a v1beta1 Gateway is not among them |
| `Parents.ListenersOf` | pkg/gatewayapi/parent.go:151-178 | one listener per entry of spec.listeners, owned by its Gateway or ListenerSet |
| `Parents.ListenersByOwner` | pkg/gatewayapi/parent.go:182-190 | the index has an entry for exactly the owners that declare a listener, holding all they declare in the order of the set |
| `Parents.ListenersUnderOwner` | pkg/gatewayapi/parent.go:182-190 | whatever is indexed under an owner belongs to it, and only known Gateways and ListenerSets have entries |
| `AttachmentChecks.SelectedIsListenersFor` | pkg/gatewayapi/listenerselect.go:12-23 | looking a parentRef up in the index selects the first listener of the section it names, or all its parent declares |
| `Attach.AcceptsKind` | pkg/gatewayapi/attach.go:40-61 | accepted kinds are the Gateway API kinds listed, or those of the protocol when none is listed; an empty list accepts anything |
| `Attach.RefusesNamespaceIff` | pkg/gatewayapi/attach.go:67-89 | a namespace is refused if and only if the policy named in the message is Same and the namespace is another one |
| `Attach.OverlapIffCommonHost` | pkg/gatewayapi/attach.go:107-135 | comparing suffixes decides set intersection: two patterns overlap if and only if some concrete hostname is covered by both |
| `Attach.HostnamesIntersect` | pkg/gatewayapi/attach.go:95-105 | the loop finds an overlapping hostname if there is one; a side without hostnames meets everything |
| `Attach.IntersectsIffSharedHost` | pkg/gatewayapi/attach.go:95-105 | the hostnames intersect if and only if some host is served by the listener and claimed by the route, where unset means every host |
| `Attach.ByteSuffixIsLabelSuffix` | pkg/gatewayapi/attach.go:126-135 | the byte-suffix test agrees with the label meaning (a wildcard stands for one or more leading labels) on exactly the hosts other than the bare suffix of the wildcard |
| `Attach.OneLabelReadingHoldsIff` | pkg/gatewayapi/attach.go:91-94 | the reading of the comment, exactly one label, is right about a host if and only if it does not match with more labels than the wildcard |
| `Attach.WildcardSpansTwoLabels` | pkg/gatewayapi/attach.go:126-131 | and wrong for every wildcard: a host with two labels in its place matches |
| `Attach.WildcardCoversTwoLabels` | pkg/gatewayapi/attach.go:126-131 | an instance |
| `Attach.CoverIsLabelsCover` | pkg/gatewayapi/attach.go:107-135 | on every host without empty labels, covering by bytes is covering by labels |
| `Attach.OverlapIffCommonName` | pkg/gatewayapi/attach.go:107-135 | on hostnames without empty labels, overlap means that some well-formed name lies under both patterns, label by label |
| `RouteMatch.CanonicalHTTPMatch` | pkg/gatewayapi/routematch.go:54-106 | the loops build the key and the counts of the description: defaults applied, header names lowered, texts sorted and joined |
| `RouteMatch.HTTPMatchesOf` | pkg/gatewayapi/routematch.go:30-52 | all matches of all rules in order, one match-everything for a rule without matches, nothing for other kinds |
| `RouteMatch.SameMatchesShareKey` | pkg/gatewayapi/routematch.go:54-106 | for all matches: equal path, method and bags of conditions give equal keys, so reordering headers or parameters and recasing header names never changes the key; for the defaults see MatchTerms.DefaultsAreNoDifference |
| `RouteMatch.KeyIsCanonical` | pkg/gatewayapi/routematch.go:54-106 | on matches whose fields hold no separator, keys are equal if and only if path, method, headers and parameters are, as bags |
| `MatchMeaning.KeyIdentifiesIffBarePath` | pkg/gatewayapi/routematch.go:54-106 | among all matches of path types without a colon, a key singles its match out if and only if the match is nothing but a path in which no text after a semicolon reads as a method, headers or parameters |
| `MatchMeaning.SwallowedSharesKey` | pkg/gatewayapi/routematch.go:97-105 | every match with a method, header or parameter shares its key with a different match of a longer path |
| `MatchMeaning.TailReads` | pkg/gatewayapi/routematch.go:97-105 | what follows the path in any key reads as a method, as headers with a lower-case name, or as parameters |
| `MatchMeaning.MatchWithTail` | pkg/gatewayapi/routematch.go:97-105 | and whatever reads so is the rest of the key of some match of the same path |
| `MatchMeaning.CommaInHeaderValueCollides` | pkg/gatewayapi/routematch.go:79-97 | every match with two or more headers shares its key with a different match of one header whose value holds a comma |
| `MatchRequests.SelectTheSameIff` | pkg/gatewayapi/routematch.go:16-22 | for all matches, with Exact and PathPrefix compared as the Gateway API says and other types in any way: the same requests are selected if and only if the path is the same (as spelled, or as the elements of a prefix), and so are the method and the sets of headers and of parameters that count |
| `MatchRequests.EqualKeysIffSameRequests` | pkg/gatewayapi/routematch.go:16-22 | the documented promise, both ways: on matches without separators, repeated names or a trailing slash on a prefix, keys are equal if and only if the same requests are selected |
| `RequestPaths.SpellingsIff` | pkg/gatewayapi/routematch.go:54-65 | two path prefixes have the same elements if and only if they are equal or differ by one trailing slash |
| `MatchRequests.PrefixSpelledTwice` | pkg/gatewayapi/routematch.go:54-65 | for every prefix match, adding or dropping the trailing slash keeps the requests selected and changes the key; a prefix ending in two slashes has no other spelling |
| `MatchRequests.PromiseKeptIffWellSpelled` | pkg/gatewayapi/routematch.go:16-22 | a separator-free match keeps the promise against every well-spelled match (no name repeated, no trailing slash on a prefix) if and only if it is well-spelled |
| `MatchRequests.PromiseKeptAmongAllIff` | pkg/gatewayapi/routematch.go:16-22 | against every separator-free match it keeps the promise if and only if it has neither headers nor parameters and its path is no prefix with another spelling |
| `MatchRequests.EqualKeysSufficeIff` | pkg/gatewayapi/routematch.go:16-22 | for a separator-free match, equal keys mean equal requests against every other if and only if it gives no name two different conditions |
| `MatchRequests.WellSpelledTwin` | pkg/gatewayapi/routematch.go:54-100 | every separator-free match selects what a well-spelled one does, and differs from it only if it is not well-spelled |
| `MatchRequests.RepeatedHeaderReordered` | pkg/gatewayapi/routematch.go:79-97 | for every match giving a header two ways: swapping the one that counts with the other keeps the key and changes the requests selected |
| `MatchRequests.RepeatedParamReordered` | pkg/gatewayapi/routematch.go:79-100 | the same for parameters |
| `MatchRequests.RepeatedHeaderDropped` | pkg/gatewayapi/routematch.go:79-97 | for every match naming a header again: dropping the later one keeps the requests selected and changes the key |
| `MatchRequests.RepeatedParamDropped` | pkg/gatewayapi/routematch.go:79-100 | the same for parameters |
| `ConflictingRouteMatch.AsCandidate` | pkg/templates/conflictingroutematch/template.go:112-131 | an object is a candidate if and only if it is an HTTPRoute with a match |
| `ConflictingRouteMatch.AttachmentsOf` | pkg/templates/conflictingroutematch/template.go:151-176 | the map holds, for every listener name a parentRef reaches, the last listener of that name that admits the route, and nothing else |
| `ConflictingRouteMatch.AttachmentsAreOrdered` | pkg/templates/conflictingroutematch/template.go:229-240 | the order on attachments is a strict total order |
| `ConflictingRouteMatch.ContestedHostnames` | pkg/templates/conflictingroutematch/template.go:248-267 | exactly the equally spelled hostnames, sorted; the empty one when neither route names any |
| `ConflictingRouteMatch.IdenticalMatch` | pkg/templates/conflictingroutematch/template.go:272-288 | finds the first match carrying the least key both routes have, and finds one if and only if they share a key |
| `ConflictingRouteMatch.Conflict` | pkg/templates/conflictingroutematch/template.go:181-227 | for every order of the map: a conflict is found if and only if the routes share a listener, a hostname it can serve and a key; what is named is the least of them |
| `ConflictingRouteMatch.ReportIsUnique` | pkg/templates/conflictingroutematch/template.go:181-227 | only one report meets that description, so map order cannot show |
| `ConflictingRouteRun.CheckFunc` | pkg/templates/conflictingroutematch/template.go:77-110 | one diagnostic per rival, in the order of the set, each the report of that pair |
| `ConflictingRouteRun.RivalsAre` | pkg/templates/conflictingroutematch/template.go:90-108 | the rivals of a route are exactly the objects it is reported against, each once |
| `ConflictingRouteRun.ConflictIsMutual` | pkg/templates/conflictingroutematch/template.go:181-227 | when listeners of one name that admit different routes agree on the hostname, conflict does not depend on which route asks |
| `MutualConflict.MutualIffHostsAgree` | pkg/templates/conflictingroutematch/template.go:151-227 | and only then: conflicts of any two HTTPRoutes are seen from both if and only if, for every owner, listener name and two namespaces, the listeners admitting them have the same hostname |
| `MutualConflict.TellingHost` | pkg/gatewayapi/attach.go:107-135 | any two different listener hostnames are told apart by some hostname one of them serves and the other does not |
| `ConflictingRouteRun.UniqueNamesAgree` | pkg/templates/conflictingroutematch/template.go:151-176 | listener names unique under each owner are enough for that |
| `ConflictingRouteRun.RepeatedNamesBreakSymmetry` | pkg/templates/conflictingroutematch/template.go:151-176 | an instance where it fails: Gateways with two listeners of one name where one route sees the conflict and the other does not |
| `ConflictingRouteRun.ReportedOnceByLater` | pkg/templates/conflictingroutematch/template.go:90-108 | wherever conflicts are mutual, of every undecided pair exactly one member is reported, the later-sorting one, and nothing else is |
| `ConflictingRouteRun.RowIsRivals` | pkg/templates/conflictingroutematch/template.go:77-110 | the diagnostics of one object are as many as its row of the run |
| `ConflictingRouteRun.ReportsCountUndecidedPairs` | pkg/templates/conflictingroutematch/template.go:77-110 | wherever conflicts are mutual, the diagnostics of a whole run are as many as the unordered conflicting pairs not separated by age |
| `AmbiguousRoutes.ReportMeansAmbiguous` | pkg/templates/conflictingroutematch/template.go:1-21 | a reported pair has matches selecting exactly the same requests, and every claim that is not spurious has a served host that both claim; nothing decides between the two if and only if some claim is open |
| `AmbiguousRoutes.ConflictIffAmbiguous` | pkg/templates/conflictingroutematch/template.go:181-227 | on well-spelled rules two routes conflict if and only if both claim a hostname on a listener that can serve it and declare a match each selecting exactly the same requests |
| `AmbiguousRoutes.AmbiguousIff` | pkg/templates/conflictingroutematch/template.go:1-21 | neither hostnames nor matches decide between two routes if and only if some claim the check finds is open, and two of their matches, of equal rank and one path and method, can be met by one request while whatever outranks them asks for more |
| `AmbiguousRoutes.SilentIffNoMatchShared` | pkg/templates/conflictingroutematch/template.go:270-288 | on well-spelled rules the check is silent about a pair that nothing decides if and only if no match of the one selects exactly the requests of a match of the other |
| `AmbiguousRoutes.ConflictIsAmbiguousIff` | pkg/templates/conflictingroutematch/template.go:1-21 | on well-spelled rules a conflict is of a pair that nothing decides if and only if some claim is open: identical matches always leave a request tied, whatever else the routes declare |
| `AmbiguousRoutes.DifferentHeadersAreMissed` | pkg/templates/conflictingroutematch/template.go:270-288 | for every match: two routes narrowing it by headers of different names are tied on the requests that carry both, declare no match of the same requests and share no key |
| `MatchPrecedence.LeftTiedIff` | pkg/templates/conflictingroutematch/template.go:8-13 | for any two lists of matches with Exact and PathPrefix paths: some request is tied between the best matches of the two if and only if two matches of equal rank, on one path and method, ask no name for two values and nothing that outranks them asks for no more than both |
| `MatchPrecedence.WitnessSelectsIff` | pkg/templates/conflictingroutematch/template.go:8-13 | for two matches that can be met together there is one request that a better match selects if and only if it asks no more than the two |
| `MatchPrecedence.AskingNoMoreSelects` | pkg/templates/conflictingroutematch/template.go:8-13 | a match that asks no more than two others selects every request that both select |
| `MatchPrecedence.OutrankingAsksMore` | pkg/templates/conflictingroutematch/template.go:8-13 | among well-spelled matches, one that outranks another asks for more than it does |
| `MatchPrecedence.SharedMatchLeavesTie` | pkg/templates/conflictingroutematch/template.go:8-13 | two well-spelled matches of the same requests leave a request tied in every pair of routes that declare them |
| `AmbiguousRoutes.TrailingSlashIsMissed` | pkg/templates/conflictingroutematch/template.go:270-288 | for every prefix: two routes spelling it with and without the trailing slash have a match selecting the same requests and share no key; only the count of characters ranks the two |
| `HostPrecedence.TiedIff` | pkg/templates/conflictingroutematch/template.go:242-267 | hostname precedence leaves a host undecided between two routes if and only if a hostname both spell covers it and no better one does |
| `HostPrecedence.OpenIffUndecided` | pkg/templates/conflictingroutematch/template.go:242-267 | a hostname both routes spell leaves some host the listener serves undecided if and only if no better hostname of either route covers everything the listener serves under it, and it is not an empty name on a listener that names a host |
| `HostPrecedence.TiedIffOpenClaim` | pkg/templates/conflictingroutematch/template.go:181-267 | no undecided host is missed by the claims the check finds, and a claim leaves none exactly when it is outdone or spurious, for all hostname lists |
| `HostPrecedence.ExactNamesStayOpen` | pkg/templates/conflictingroutematch/template.go:242-267 | a claim of an exact hostname is never outdone |
| `HostPrecedence.ExactListenerDecidesWildcards` | pkg/templates/conflictingroutematch/template.go:242-267 | a claim of a wildcard is, on a listener of one exact hostname that either route names too |
| `HostPrecedence.WildcardReportedThoughDecided` | pkg/templates/conflictingroutematch/template.go:1-15 | an instance of a pair reported on a wildcard although every served host is decided |
| `Tiebreak.ReportOrderIsTiebreakIff` | pkg/templates/conflictingroutematch/template.go:95-100 | the order of reporting is the alphabetical tiebreak by namespace/name if and only if neither namespace continues the other with a character below the slash |
| `Tiebreak.ReportedLosesIff` | pkg/templates/conflictingroutematch/template.go:90-108 | so the reported route loses that tiebreak with the same exception |
| `Tiebreak.DashedNamespaceWins` | pkg/templates/conflictingroutematch/template.go:140-145 | for every namespace, one extended by a dash is such an exception |
| `AmbiguousRoutes.KeysSharedIffMatchShared` | pkg/templates/conflictingroutematch/template.go:272-288 | on well-spelled rules two routes share a key if and only if they declare, or default to, matches selecting the same requests |
| `AttachmentChecks.DanglingParentRef` | pkg/templates/danglingparentref/template.go:41-76 | one finding per parentRef to an unknown Gateway or ListenerSet, in order, and none when no parent is known at all |
| `AttachmentChecks.ListenerNotFound` | pkg/templates/listenernotfound/template.go:45-77 | one finding per parentRef whose section no listener of a known parent carries, listing the names it has |
| `AttachmentChecks.RouteNotPermitted` | pkg/templates/routenotpermitted/template.go:37-70 | one finding per parentRef of which every selected listener refuses the route |
| `AttachmentChecks.WhyNoneAdmit` | pkg/templates/routenotpermitted/template.go:86-114 | nothing once a listener admits the route or the fault is another check's; otherwise one reason per refusing listener, in order |
| `AttachmentChecks.ProtocolMismatch` | pkg/templates/protocolmismatch/template.go:53-79 | one finding per parentRef of which no selected listener's protocol carries the route |
| `AttachmentChecks.WhyNoListenerCarries` | pkg/templates/protocolmismatch/template.go:85-123 | nothing once a listener carries the route; otherwise one reason per listener judged, in order |
| `AttachmentChecks.HostnameNeverMatches` | pkg/templates/hostnamenevermatches/template.go:53-82 | one finding per parentRef of which no selected listener that takes the route meets its hostnames, with those hostnames in order |
| `AttachmentChecks.WhyNoListenerMatches` | pkg/templates/hostnamenevermatches/template.go:87-108 | nothing once a listener meets the hostnames; otherwise the hostname of every listener judged, in order |
| `ListenerNames.SortedNamesIgnoreOrder` | pkg/templates/conflictinglisteners/template.go:264-274 | the names a message lists do not depend on the order of the listeners |
| `ListenerNames.SortedNamesAre` | pkg/templates/conflictinglisteners/template.go:264-274 | the names listed are, as a bag, the quoted names of the listeners |
| `ListenerNames.SortNames` | pkg/templates/listenernotfound/template.go:90-103 | the sorted, quoted names of the listeners a parent does have |
| `AttachmentDiagnosis.FindingsAre` | pkg/templates/routenotpermitted/template.go:45-69 | a check reports a parentRef if and only if it has a reason for it |
| `AttachmentDiagnosis.AtMostOneCheckReports` | pkg/templates/routenotpermitted/template.go:45-114 | for every set, route and parentRef at most one of dangling-parent-ref, listener-not-found, route-not-permitted and the pair protocol-mismatch / hostname-never-matches reports |
| `AttachmentDiagnosis.RefusedExcludesTheRest` | pkg/templates/routenotpermitted/template.go:86-114 | what route-not-permitted reports neither of the pair reports; in particular no kind mismatch is reported twice |
| `AttachmentDiagnosis.DanglingExcludesTheRest` | pkg/templates/danglingparentref/template.go:57-75 | a dangling parentRef is reported by no other check |
| `AttachmentDiagnosis.NotFoundExcludesTheRest` | pkg/templates/listenernotfound/template.go:53-76 | a missing listener is reported by none of the checks on listeners |
| `AttachmentDiagnosis.PairOverlapsIff` | pkg/templates/hostnamenevermatches/template.go:53-108 | exactly when protocol-mismatch and hostname-never-matches both report a parentRef: no selected listener's protocol carries the route, some takes it, and none that does meets its hostnames |
| `AttachmentDiagnosis.ProtocolAndHostnameBothReport` | pkg/templates/protocolmismatch/template.go:85-123 | an instance: a single listener that allows a kind its protocol cannot carry and serves other hostnames |
| `AttachmentDiagnosis.NoFalseAlarm` | pkg/templates/routenotpermitted/template.go:86-114 | once one of the three checks gives a reason, no selected listener accepts namespace and kind, carries the kind and meets the hostnames |
| `AttachmentDiagnosis.SilentIff` | pkg/templates/hostnamenevermatches/template.go:87-108 | exactly when the three checks are silent about a parentRef that selects listeners: each test passes on some selected listener, not necessarily the same one |
| `AttachmentDiagnosis.OneListenerSilentIffWorks` | pkg/templates/hostnamenevermatches/template.go:87-108 | with one listener selected, silence holds if and only if that listener passes all four tests |
| `AttachmentDiagnosis.SeveralListenersCanBeSilent` | pkg/templates/protocolmismatch/template.go:85-123 | over several listeners it does not: a plain TCP listener beside an HTTP listener for GRPCRoute only leaves an HTTPRoute unattached and unreported |
| `AttachmentDiagnosis.OnlyAttachPointsMatter` | pkg/gatewayapi/parent.go:72-87 | no object but a v1 Gateway or ListenerSet makes a difference to any of the five checks |
| `AttachmentDiagnosis.BetaGatewayLooksDangling` | pkg/templates/danglingparentref/template.go:46-66 | a parentRef to a v1beta1 Gateway that is present is reported dangling if and only if the set has a v1 Gateway or ListenerSet and no v1 object of that identity |
| `PolicyCoverage.BackendTrafficPolicyTargets` | pkg/gatewayapi/policycoverage.go:49-59 | the deprecated single target first, then the list, field by field |
| `PolicyCoverage.RoutesAttachedToParent` | pkg/gatewayapi/policycoverage.go:239-250 | the routes with a parentRef to that parent and listener, in order, each once per object |
| `PolicyCoverage.ListenerSetsBelongingTo` | pkg/gatewayapi/policycoverage.go:252-271 | the ListenerSets whose parentRef is to that Gateway, in order |
| `PolicyCoverage.RoutesAttachedToGateway` | pkg/gatewayapi/policycoverage.go:216-235 | direct routes, then routes through ListenerSets that bring a key not yet seen |
| `PolicyCoverage.RoutesTargetedBy` | pkg/gatewayapi/policycoverage.go:149-166 | what a target reaches: through a Gateway, through a ListenerSet, or the first route of that identity |
| `PolicyCoverage.RoutesSelectedBy` | pkg/gatewayapi/policycoverage.go:170-200 | the routes of the kind, namespace and labels a selector asks for; none when the selector does not parse |
| `PolicyCoverage.BackendTrafficPolicyCoverage` | pkg/gatewayapi/policycoverage.go:63-90 | the covered routes of all targets, then of all selectors, with inheritance and rule section |
| `PolicyCoverage.MoreSpecificPolicyCovers` | pkg/gatewayapi/policycoverage.go:98-114 | true if and only if a policy at another position covers the route's rule directly |
| `PolicyReach.GatewayRoutesExact` | pkg/gatewayapi/policycoverage.go:216-235 | the routes of a Gateway: direct ones first, the appended ones repeat no key among themselves or with them; nothing is listed without a parentRef, defaults read in, to the Gateway on a covered listener or to a ListenerSet of its, and every identity with one is |
| `PolicyReach.GatewayRoutesUnique` | pkg/gatewayapi/policycoverage.go:216-235 | with unique route identities there is no repetition, and the routes listed are exactly those reaching the Gateway |
| `PolicyReach.NarrowingShrinks` | pkg/gatewayapi/policycoverage.go:216-250 | narrowing a Gateway target to a listener can only lose identities |
| `PolicyReach.FreshAre` | pkg/gatewayapi/policycoverage.go:216-235 | de-duplication keeps one route per key not seen before, loses no key and invents none |
| `PolicyReach.AttachedAre` | pkg/gatewayapi/policycoverage.go:239-250 | a route is listed if and only if one of its parentRefs, defaults read in, is to the parent and names no listener or the one asked for |
| `PolicyReach.SetsAre` | pkg/gatewayapi/policycoverage.go:252-271 | a ListenerSet is listed if and only if its parentRef is to that Gateway, group and kind included |
| `PolicyReach.TargetDisplacesIff` | pkg/gatewayapi/policycoverage.go:149-166 | a target displaces for a rule if and only if it names that route, which is present, with a section that covers the rule |
| `PolicyReach.CoversDirectlyIff` | pkg/gatewayapi/policycoverage.go:98-114 | a policy covers a rule directly if and only if it names the route with a covering section, or selects a route of its identity |
| `PolicyReach.ByTargetsAre` | pkg/gatewayapi/policycoverage.go:63-90 | covered by targets means: covered by one of them |
| `PolicyReach.BySelectorsAre` | pkg/gatewayapi/policycoverage.go:170-200 | covered by selectors means: some selector matches a route of the set |
| `ColdStartCoverage.PolicyCoverageOf` | pkg/templates/fqdnbackendcoldstart/coverage.go:56-85 | the second coverage engine yields, for every set and policy, the same sequence of target, route, inheritance and rule section as the first |
| `ColdStartCoverage.RoutesAttachedToGateway` | pkg/templates/fqdnbackendcoldstart/coverage.go:183-202 | its walk from Gateway to routes lists the same routes in the same order |
| `ColdStartCoverage.RoutesAttachedTo` | pkg/templates/fqdnbackendcoldstart/coverage.go:218-229 | its parent lookup agrees with the shared one |
| `ColdStartCoverage.ListenerSetsOfGateway` | pkg/templates/fqdnbackendcoldstart/coverage.go:237-260 | its ListenerSets are the same, in the same order |
| `ColdStartCoverage.ResolveRoutes` | pkg/templates/fqdnbackendcoldstart/coverage.go:107-123 | its target resolution agrees with the shared one |
| `ColdStartCoverage.ResolveSelectedRoutes` | pkg/templates/fqdnbackendcoldstart/coverage.go:127-158 | its selector resolution, which walks objects instead of routes, agrees with the shared one |
| `ColdStartCoverage.FindRoute` | pkg/templates/fqdnbackendcoldstart/coverage.go:171-178 | finds the first route of an identity |
| `ColdStartCoverage.PolicyTargetRefs` | pkg/templates/fqdnbackendcoldstart/coverage.go:25-35 | its targets are the shared ones, field by field |
| `ColdStartCoverage.IsOverridden` | pkg/templates/fqdnbackendcoldstart/coverage.go:278-294 | true if and only if a policy at another position, with a health check, covers the rule directly |
| `ColdStartCoverage.OverriddenVersusMoreSpecific` | pkg/templates/fqdnbackendcoldstart/coverage.go:278-294 | being overridden implies being displaced by the other engine's test, and the two agree when every other policy has a health check |
| `GatewayServesNoRoutes.CheckFunc` | pkg/templates/gatewayservesnoroutes/template.go:53-96 | reports a Gateway if and only if the set has a route and none names the Gateway or a ListenerSet it owns |
| `GatewayServesNoRoutes.ListenerSetsOf` | pkg/templates/gatewayservesnoroutes/template.go:100-117 | the ListenerSets owned by namespace and name alone, whatever group and kind their parentRef states |
| `GatewayServesNoRoutes.ReportsIffUncovered` | pkg/templates/gatewayservesnoroutes/template.go:53-96 | exactly when the third hierarchy walk reports: coverage finds no route attached, and none is attached through a ListenerSet that coverage does not count |
| `GatewayServesNoRoutes.ReportsIffNoRouteCovered` | pkg/templates/gatewayservesnoroutes/template.go:53-96 | when every ListenerSet's parentRef is to a Gateway API Gateway, reporting means a set with routes and empty coverage, both ways |
| `GatewayServesNoRoutes.ForeignSetSilences` | pkg/templates/gatewayservesnoroutes/template.go:100-117 | a family where the walks differ: a ListenerSet naming the Gateway under another kind, with a route on it, silences the check though coverage is empty |
| `HealthCheckWithoutFailover.SoleBackend` | pkg/templates/healthcheckwithoutfailover/template.go:106-135 | a Backend comes back if and only if the coverage extends to a single backendRef and that resolves to it |
| `HealthCheckWithoutFailover.FindBackend` | pkg/templates/healthcheckwithoutfailover/template.go:182-193 | the first Backend of that namespace and name, if there is one |
| `HealthCheckWithoutFailover.CheckFunc` | pkg/templates/healthcheckwithoutfailover/template.go:63-94 | one report per coverage that comes down to a lone endpoint and is not displaced, in order |
| `HealthCheckWithoutFailover.ReportIsUnique` | pkg/templates/healthcheckwithoutfailover/template.go:63-94 | a coverage gives rise to at most one report |
| `HealthCheckWithoutFailover.WholeRouteDiffersFromRuleIff` | pkg/templates/healthcheckwithoutfailover/template.go:75-81 | asking about the whole route, as here, differs from asking about the rule of the backendRef, as fqdn-backend-cold-start does, if and only if some other policy names that rule by section and no other names the route without a section or selects a route of its identity |
| `ConflictingListeners.CheckFunc` | pkg/templates/conflictinglisteners/template.go:74-101 | for every map order: the findings of all ports ascending, indistinct ones before protocol ones on each port |
| `ConflictingListeners.IndistinctListeners` | pkg/templates/conflictinglisteners/template.go:121-159 | one finding per key carried twice on the port, keys ascending |
| `ConflictingListeners.ProtocolConflicts` | pkg/templates/conflictinglisteners/template.go:163-191 | one finding per clashing pair of protocols on the port, in order |
| `ConflictingListeners.GroupByPort` | pkg/templates/conflictinglisteners/template.go:81-88 | every port has all its listeners, in spec order |
| `ConflictingListeners.GroupByKey` | pkg/templates/conflictinglisteners/template.go:121-133 | every key of the port has all its listeners, in spec order |
| `ConflictingListeners.GroupByProtocol` | pkg/templates/conflictinglisteners/template.go:163-176 | every protocol of the port has all its listeners, in spec order |
| `ConflictingListeners.KeysAreOrdered` | pkg/templates/conflictinglisteners/template.go:134-143 | protocol then hostname is a strict total order on keys |
| `ConflictingListeners.ProtocolsConflictIff` | pkg/templates/conflictinglisteners/template.go:206-253 | protocols clash symmetrically, and exactly: TCP with HTTP, HTTPS and TLS, and HTTP with HTTPS and TLS |
| `ListenerConflicts.FindingsIgnoreOrder` | pkg/templates/conflictinglisteners/template.go:74-191 | permuting the listeners of one owner changes no finding, nor the order of the findings |
| `ListenerConflicts.ReorderedListenersSameFindings` | pkg/templates/conflictinglisteners/template.go:74-101 | two objects of one identity whose spec.listeners are permutations get the same findings in the same order |
| `ListenerConflicts.PortsPartition` | pkg/templates/conflictinglisteners/template.go:81-99 | the ports split the listeners: each is in the group of its port and the groups add up to all of them |
| `ListenerConflicts.OneFindingPerRepeatedKey` | pkg/templates/conflictinglisteners/template.go:121-159 | a port and key get exactly one indistinct finding if two positions carry them, and none otherwise |
| `ListenerConflicts.NamesAreTheGroup` | pkg/templates/conflictinglisteners/template.go:121-159 | an indistinct finding names all listeners of its port and key |
| `ListenerConflicts.NamedIffAnotherIsIndistinct` | pkg/templates/conflictinglisteners/template.go:121-159 | a listener is named in an indistinct finding if and only if another position has its port, its protocol and its hostname, unset being empty |
| `ListenerConflicts.OneFindingPerClash` | pkg/templates/conflictinglisteners/template.go:163-253 | two protocols present on a port get exactly one finding, whichever is listed first, if they are TCP with HTTP, HTTPS or TLS, or HTTP with HTTPS or TLS, and none otherwise |
| `ListenerConflicts.ClashNamesAreTheGroups` | pkg/templates/conflictinglisteners/template.go:176-190 | a protocol finding names all the listeners of either protocol on its port |
| `ConflictingPolicies.TargetsOf` | pkg/templates/conflictingpolicies/template.go:116-143 | the distinct slots a policy claims, in order of first mention |
| `ConflictingPolicies.ClaimsIff` | pkg/templates/conflictingpolicies/template.go:116-143 | a policy claims a slot if and only if it is in its namespace and one of its references, old or new style, names it; never twice |
| `ConflictingPolicies.OtherPoliciesTargeting` | pkg/templates/conflictingpolicies/template.go:145-161 | the names of all policies at other positions that claim the slot, sorted |
| `ConflictingPolicies.OthersAre` | pkg/templates/conflictingpolicies/template.go:145-161 | a name is among them if and only if another claimant carries it |
| `ConflictingPolicies.IsFirstByName` | pkg/templates/conflictingpolicies/template.go:163-170 | true if and only if no rival's name is less |
| `ConflictingPolicies.CheckFunc` | pkg/templates/conflictingpolicies/template.go:83-111 | the reports of the slots a policy speaks for, in the order it claims them |
| `ConflictingPolicies.ReportsAre` | pkg/templates/conflictingpolicies/template.go:83-111 | a slot is reported if and only if the policy claims it, another does, and none with a lesser name; once, with exactly the other claimants as rivals |
| `ConflictingPolicies.ContestedIffSpokenFor` | pkg/templates/conflictingpolicies/template.go:83-111 | every slot with two claimants is reported by someone, and no other slot is |
| `ConflictingPolicies.DiagnosticsVersusSlots` | pkg/templates/conflictingpolicies/template.go:83-170 | over a run there are at least as many diagnostics as contested slots, and as many if and only if no slot's least name is carried by two claimants |
| `ConflictingPolicies.OneDiagnosticPerContestedSlot` | pkg/templates/conflictingpolicies/template.go:83-170 | with names unique per namespace the two numbers are equal |
| `MissingReferenceGrant.GrantsByNamespace` | pkg/templates/missingreferencegrant/grants.go:28-46 | the index holds, for every namespace, the grants that live there at any version, and no empty entry |
| `MissingReferenceGrant.Permits` | pkg/templates/missingreferencegrant/grants.go:51-58 | true if and only if one grant has an entry on each side that matches |
| `MissingReferenceGrant.MatchesFrom` | pkg/templates/missingreferencegrant/grants.go:63-72 | true if and only if an entry names the Gateway API group, the kind and the namespace of the route |
| `MissingReferenceGrant.MatchesTo` | pkg/templates/missingreferencegrant/grants.go:77-87 | true if and only if an entry covers group, kind and name, a missing name covering all |
| `MissingReferenceGrant.CheckFunc` | pkg/templates/missingreferencegrant/template.go:62-107 | one report per denied backendRef in order: into another namespace that has grants, none of them permitting it |
| `MissingReferenceGrant.GrantAddedToOne` | pkg/templates/missingreferencegrant/template.go:73-105 | what a new grant does to any backendRef: nothing elsewhere; lifts exactly what it authorises where a grant was; denies exactly what it does not authorise where none was |
| `MissingReferenceGrant.GrantNeverAddsReport` | pkg/templates/missingreferencegrant/template.go:73-105 | adding a grant to a namespace that has one leaves exactly the earlier reports it does not authorise, in their order |
| `MissingCertificateGrant.ReferenceGrants` | pkg/templates/missingcertificategrant/template.go:137-154 | every grant of the set with its namespace, in order |
| `MissingCertificateGrant.DescribedNamespaces` | pkg/templates/missingcertificategrant/template.go:159-168 | the namespaces of the set that hold a Secret, or a Certificate that will become one, or a grant, whatever the order of the map |
| `MissingCertificateGrant.Permitted` | pkg/templates/missingcertificategrant/template.go:97-107 | true if and only if a grant of the certificate's namespace has an entry for the owner and one for the certificate |
| `MissingCertificateGrant.CheckFunc` | pkg/templates/missingcertificategrant/template.go:64-93 | for the terminating listeners of the object: one report per certificate in another, described namespace that no grant covers, in order |
| `Certificates.TerminatingCertificateRefs` | pkg/gatewayapi/certificate.go:47-65 | the certificateRefs of every terminating listener of a Gateway or ListenerSet, in order; none for other objects |
| `Certificates.TerminatingRefsAre` | pkg/gatewayapi/certificate.go:47-93 | exactly the references of the listeners that set TLS without passing it through, with group, kind and namespace defaulted |
| `Certificates.CertificateRefsOf` | pkg/gatewayapi/certificate.go:67-93 | one reference per certificateRef, its defaults overwritten field by field; none for a passthrough listener |
| `Certificates.CertificateSecrets` | pkg/gatewayapi/certificate.go:111-125 | the core Secrets of the set and those its cert-manager Certificates name |
| `MissingCertificateGrant.IndexAgreesWithScan` | pkg/templates/missingcertificategrant/template.go:97-132 | the indexed decision of the one check and the linear scan of the other are the same on corresponding references |
| `MissingCertificateGrant.ReportedAsBackendWouldBe` | pkg/templates/missingcertificategrant/template.go:64-93 | where a grant is present, a certificate is reported if and only if a backendRef with the same ends would be |
| `MissingCertificateGrant.GrantAddedToOne` | pkg/templates/missingcertificategrant/template.go:74-91 | what a new grant does to any certificate: nothing elsewhere; lifts exactly what it authorises where the namespace was described; denies exactly what it does not authorise where it was not |
| `MissingCertificateGrant.GrantNeverAddsReport` | pkg/templates/missingcertificategrant/template.go:64-107 | a new grant in a described namespace leaves exactly the earlier reports it does not authorise, in their order |
| `Scanned.MergeContexts` | pkg/command/lint/merge.go:33-40 | the merged context holds the objects and the invalid objects of all contexts, in order |
| `Scanned.MergingKeepsSummary` | pkg/command/lint/merge.go:33-40 | summarizing the contexts and summarizing the one they merge into give the same summary |
| `Scanned.Summarize` | pkg/command/lint/scanned.go:43-82 | the nested loops compute the summary, whatever the order of the maps they build |
| `Scanned.SummaryCounts` | pkg/command/lint/scanned.go:43-82 | every figure counted independently: objects, unparsed, checked and by kind as sets of positions, files as the distinct paths named; checked at most objects, files at most objects plus unparsed |
| `Scanned.CheckedIsSumByKind` | pkg/command/lint/scanned.go:65-71 | checked is the sum of the counts by kind, in whatever order they are listed |
| `Scanned.ByKind` | pkg/command/lint/scanned.go:119-135 | the breakdown is one fixed sequence for every order of the map |
| `Scanned.BreakdownIs` | pkg/command/lint/scanned.go:119-135 | it lists every kind once, commonest first and ties by name |
| `Scanned.Render` | pkg/command/lint/scanned.go:88-108 | the line: which of the three wordings is used with its figures, the loaded objects and files, and the unparsed objects when there are any |
| `Scanned.LineAccountsForChecked` | pkg/command/lint/scanned.go:88-135 | whichever wording is used its figures add up to checked, and nothing is said to be checked if and only if no check applied to any object |
| `ReferenceTerms.RouteFields` | pkg/gatewayapi/route.go:77-112 | kind by kind and version by version: which objects are routes, and that a route has its object's namespace, name, labels, parentRefs and, except for TCP and UDP, hostnames |
| `ReferenceTerms.HTTPRulesAre` | pkg/gatewayapi/rules.go:74-87 | the rules of an HTTPRoute by position: index, name, filters and backendRefs, each as written |
| `ReferenceTerms.GRPCRulesAre` | pkg/gatewayapi/rules.go:89-104 | the same for GRPCRoute |
| `ReferenceTerms.StreamRulesAre` | pkg/gatewayapi/rules.go:106-152 | the rules of the other kinds, which have no filters |
| `ReferenceTerms.RuleListIs` | pkg/gatewayapi/rules.go:45-72 | each kind and version has the rules of its own spec |
| `ReferenceTerms.FlatAt` | pkg/gatewayapi/route.go:114-190 | the place of every backendRef of every rule in the flat list, tagged with its rule's name, and that the list holds no other |
| `ReferenceTerms.KnownParentsAre` | pkg/gatewayapi/parent.go:72-87 | an identity is known if and only if a v1 Gateway or a ListenerSet of that namespace and name is in the set |
| `ReferenceTerms.ListenersAreSpecs` | pkg/gatewayapi/parent.go:151-190 | the listeners of an identity are the spec.listeners of every object that has it, in order and field by field |
| `PolicyReach.AttachesToIff` | pkg/gatewayapi/parent.go:49-61 | a route attaches to a parent if and only if one of its parentRefs, with group, kind and namespace defaulted, is to it, and it, the query or neither names another listener |
| `PolicyReach.ReachesIff` | pkg/gatewayapi/policycoverage.go:216-271 | reaching a Gateway in terms of parentRefs: to it, or to a ListenerSet whose own parentRef is to it |
| `ListenerTerms.AcceptsIff` | pkg/gatewayapi/attach.go:12-62 | a listener takes the kinds it lists for the Gateway API, any if it lists only foreign ones, and without a list those of its protocol: seven pairs, and anything under a protocol not known |
| `ListenerTerms.AcceptsNamespaceIff` | pkg/gatewayapi/attach.go:67-89 | another namespace is let in only by a stated policy other than Same |
| `ListenerTerms.OverlapIff` | pkg/gatewayapi/attach.go:107-131 | two hostnames overlap if and only if some host is under both: equal to the pattern, or with text in the place of its asterisk |
| `ListenerTerms.IntersectsIff` | pkg/gatewayapi/attach.go:95-105 | a listener and a route meet if and only if one of them names no hostname or some host is under one of either |
| `ListenerTerms.SelectedAre` | pkg/gatewayapi/listenerselect.go:12-23 | a parentRef selects all listeners of the object it is to, or the first of the name its section gives |
| `ListenerTerms.DanglingIff` | pkg/templates/danglingparentref/template.go:41-76 | a parentRef is dangling if and only if no v1 Gateway or ListenerSet of its kind, namespace and name is in the set, though there are some |
| `ListenerTerms.NotFoundIff` | pkg/templates/listenernotfound/template.go:45-77 | a section is not found if and only if the object declares listeners and none of that name |
| `ListenerTerms.ForeignRefsAreSilent` | pkg/templates/danglingparentref/template.go:57-66 | none of the five checks says anything of a parentRef of another group |
| `ListenerTerms.SilentTermsIff` | pkg/templates/hostnamenevermatches/template.go:53-108 | the three checks are silent about a parentRef exactly when some selected listener lets the route in, some carries its kind, and some takes it and meets its hostnames or none takes it, all in terms of listener fields |
| `ListenerTerms.PlainListenerSilentIff` | pkg/templates/protocolmismatch/template.go:53-123 | a single listener without allowedRoutes: silent if and only if the route is of its namespace, protocol and kind are one of seven pairs, and the hostnames meet |
| `ListenerTerms.RefusalsAre` | pkg/templates/routenotpermitted/template.go:86-114 | every refusal is a listener's: of the namespace under policy Same, or of the kind with the kinds it lists |
| `ListenerTerms.MismatchesAre` | pkg/templates/protocolmismatch/template.go:85-123 | the mismatches are those of the listeners that let the route in and whose protocol does not carry it, with what it carries |
| `ListenerTerms.OffersAre` | pkg/templates/hostnamenevermatches/template.go:87-108 | the hostnames offered are those of the listeners that take the route and meet none of its hostnames |
| `MatchTerms.DefaultsAreNoDifference` | pkg/gatewayapi/routematch.go:24-29 | for every match: writing out path type PathPrefix, path "/" and the Exact type of every header and parameter changes neither key nor description nor the requests selected |
| `MatchTerms.LowerFoldsCase` | pkg/gatewayapi/routematch.go:72-83 | lowering makes two names equal if and only if they differ in ASCII case alone |
| `MatchTerms.EveryRequestIsSelected` | pkg/gatewayapi/routematch.go:39-45 | the match of a rule without matches selects every request whose path starts with a slash |
| `MatchTerms.SelectsIff` | pkg/gatewayapi/routematch.go:54-91 | a request is selected on the path, the method, the first header of each name whatever its case and the first parameter of each name, in terms of the fields stated |
| `MatchTerms.KeyIs` | pkg/gatewayapi/routematch.go:54-109 | the key to the letter: path, method, sorted headers and sorted parameters, each part only if there is one |
| `MatchTerms.DescriptionIs` | pkg/gatewayapi/routematch.go:54-109 | what the description names: the path with its defaults, the method, and how many headers and parameters |
| `MatchTerms.PrefixTakesInIff` | pkg/gatewayapi/routematch.go:54-62 | a prefix takes in its own path and all below it, a trailing slash aside; Exact takes in one path |
| `ConflictTerms.CandidateIs` | pkg/templates/conflictingroutematch/template.go:112-131 | an HTTPRoute with a rule is a candidate and nothing else is, with its object's name, parentRefs, hostnames and creationTimestamp |
| `ConflictTerms.AttachedIff` | pkg/templates/conflictingroutematch/template.go:151-179 | a route attaches through the last listener of a name that takes HTTPRoutes from its namespace, if a parentRef of its takes that listener in |
| `ConflictTerms.ClashIff` | pkg/templates/conflictingroutematch/template.go:181-227 | two objects conflict if and only if both are HTTPRoutes attached through one listener, naming one hostname it can serve or none at all, and declaring matches of one key |
| `ConflictTerms.UndecidedIff` | pkg/templates/conflictingroutematch/template.go:133-138 | a pair is undecided if and only if the two conflict under two names, and not both state a creationTimestamp with different times |
| `ConflictTerms.ReportedTermsIff` | pkg/templates/conflictingroutematch/template.go:90-110 | an object is reported against another if and only if they conflict, age does not decide, and its namespace, or in one namespace its name, comes later |
| `ConflictTerms.RunCountsOpenPairs` | pkg/templates/conflictingroutematch/template.go:77-110 | over a run there is one diagnostic for every pair of objects that clash, under two names, with no creationTimestamps that differ, provided same-named listeners that admit different routes agree on the hostname |
| `ConflictTerms.ReportIs` | pkg/templates/conflictingroutematch/template.go:181-240 | a report names both routes, the first shared claim by namespace, name and kind of the parent, listener and hostname, and a match of the first shared key |
| `CoverageTerms.CoverageIff` | pkg/gatewayapi/policycoverage.go:63-200 | which identities a policy covers, inherited or on which section: by a targetRef to a Gateway, ListenerSet or route, or by a selector, in terms of their fields |
| `CoverageTerms.MoreSpecificIff` | pkg/gatewayapi/policycoverage.go:98-125 | another policy displaces if and only if it names the route in its own namespace, whole or by that section, or selects a route of its name |
| `CoverageTerms.OverriddenIff` | pkg/templates/fqdnbackendcoldstart/coverage.go:278-294 | the same among policies with an active or passive health check |
| `CoverageTerms.FailoverReportIff` | pkg/templates/healthcheckwithoutfailover/template.go:63-143 | a covered route is reported for the one endpoint of the one Envoy Gateway Backend, not resolved per request, that its lone backendRef in scope names; unless inherited and displaced |
| `CoverageTerms.FailoverReportsAre` | pkg/templates/healthcheckwithoutfailover/template.go:63-104 | the reports of a policy are those of the routes it covers, each as above, and no others |
| `CoverageTerms.ServesNoRoutesIff` | pkg/templates/gatewayservesnoroutes/template.go:53-112 | a Gateway of either version is reported if and only if there are routes and none has a parentRef to it or to a ListenerSet naming it |
| `FindingTerms.FindingsSay` | pkg/templates/conflictinglisteners/template.go:121-191 | every finding names the object, exactly the listeners of its port and protocol, and hostname, and which of the reasons applies |
| `FindingTerms.FindingsInOrder` | pkg/templates/conflictinglisteners/template.go:74-191 | the findings are strictly ordered: by port, indistinct ones first by protocol and hostname, then clashes by their two protocols |
| `PolicyTerms.ReportTermsIff` | pkg/templates/conflictingpolicies/template.go:83-170 | a policy reports a slot if and only if it and another name it in their namespace and none of the others has an earlier name; the report lists every other, as often as there are policies of that name, in order |
| `PolicyTerms.ContestedIff` | pkg/templates/conflictingpolicies/template.go:83-111 | a slot is contested if and only if two policies name it |
| `GrantTerms.BackendDeniedIff` | pkg/templates/missingreferencegrant/template.go:62-107 | a backendRef is denied if and only if it states another namespace, grants are there and none is open to the route's kind and namespace and to the group, kind (Service if absent) and name |
| `GrantTerms.BackendDenialsAre` | pkg/templates/missingreferencegrant/template.go:73-105 | the denials are those of exactly the backendRefs shut out, one each |
| `GrantTerms.CertificateDeniedIff` | pkg/templates/missingcertificategrant/template.go:64-130 | a certificate is denied if and only if it is in another namespace, which holds a Secret, a Certificate naming one or a grant, and no grant is open to it |
| `GrantTerms.CertificateDenialsAre` | pkg/templates/missingcertificategrant/template.go:64-95 | the certificates denied are those shut out among the references of listeners that terminate TLS, by default or by mode, as often as they are stated |
| `ScanTerms.MergedAppends` | pkg/command/lint/merge.go:33-40 | merging is concatenation: nothing lost, added or reordered |
| `ScanTerms.SummaryTerms` | pkg/command/lint/scanned.go:43-82 | objects, unparsed ones, those some enabled check matches in all and by kind, and the distinct paths loaded from, each counted from the contexts |
| `ScanTerms.LooksForTerms` | pkg/command/lint/scanned.go:43-58 | the kinds looked for are those some check names, each once, ascending |
| `ScanTerms.BreakdownTerms` | pkg/command/lint/scanned.go:119-135 | the breakdown names the kinds counted, commonest first and those of one count by name |
| `PrecedenceTerms.BetterIsNarrower` | pkg/templates/conflictingroutematch/template.go:8-10 | of two hostnames that cover a host, the one that precedence prefers covers strictly fewer hosts, and the other way around |
| `PrecedenceTerms.OutranksIff` | pkg/templates/conflictingroutematch/template.go:8-13 | one match outranks another if and only if it wins the first criterion on which they differ: exact path, length of prefix, method, headers, parameters |
| `OrderTerms.RoutesInOrder` | pkg/gatewayapi/route.go:67-75 | the routes of two sets put together are those of the first, then those of the second |
| `OrderTerms.AttachedInOrder` | pkg/gatewayapi/policycoverage.go:239-250 | the same of the routes attached to a parent |
| `OrderTerms.SelectedInOrder` | pkg/gatewayapi/policycoverage.go:170-200 | the same of the routes a selector takes |
| `OrderTerms.SetsInOrder` | pkg/gatewayapi/policycoverage.go:252-271 | the same of the ListenerSets of a Gateway |
| `OrderTerms.TargetsInOrder` | pkg/gatewayapi/policycoverage.go:63-90 | the same of what a policy covers, target by target |
| `OrderTerms.SelectorsInOrder` | pkg/gatewayapi/policycoverage.go:63-90 | the same, selector by selector |
| `OrderTerms.DenialsInOrder` | pkg/templates/missingreferencegrant/template.go:73-105 | the same of denials, backendRef by backendRef |
| `OrderTerms.CertificateRefsInOrder` | pkg/gatewayapi/certificate.go:47-65 | the same of certificate references, listener by listener |
| `OrderTerms.CertificateDenialsInOrder` | pkg/templates/missingcertificategrant/template.go:64-95 | the same of denials of certificates |
| `OrderTerms.SlotReportsInOrder` | pkg/templates/conflictingpolicies/template.go:83-111 | the same of the reports of a policy, slot by slot |
| `OrderTerms.FirstRouteIs` | pkg/gatewayapi/policycoverage.go:149-166 | a target naming a route has the first route of that identity |
| `OrderTerms.FreshAreFirst` | pkg/gatewayapi/policycoverage.go:216-235 | de-duplication keeps, of the keys not seen before, the first route of each |

## Left out

- Commands, file loading, YAML decoding, output formats and check registration: input, output and plumbing.
- Message wording, quoting by `%q` and pluralisation: a finding records which items its message names, in order; the quoted names of listeners are modelled without escapes.
- Kubernetes label selectors: one function from selector to whether it parses and one from selector and labels to whether it matches (`PolicyCoverage.LabelLibrary`), the same for both engines.
- The matcher of a check in the scan summary: any predicate on group, version and kind.
- How an implementation compares paths, headers and parameters of types other than Exact and PathPrefix: in any way (`MatchRequests.Trial`). Selecting the same requests means doing so however it does.
- AmbiguousRoutes.AmbiguousIff: takes rules whose paths are Exact or PathPrefix, since the Gateway API leaves the rank of other path types to the implementation, and takes the host of a request as independent of its headers. A third route that outranks both is not considered: the check judges pairs.
- Unicode: lowercasing is ASCII's, and strings compare by code point, which is the byte order of UTF-8.
- creationTimestamps are whole Unix seconds; a missing one is Go's zero time, as `candidate.createdAt` has it.
- Slices and maps built by the loops are Dafny sequences and maps in local variables: growth in place and sharing of a backing array are not captured.
- Doubly nested loops are mostly split into a method for the inner loop, and the per-version flatteners of TCP, TLS and UDP routes, alike but for their Go types, are one method.
- Decoding of objects of unregistered kinds (`pkg/gatewayapi/certificate.go:132-142`): such an object is its group, its kind and the text at spec.secretName, if there is one.
- The body of fqdn-backend-cold-start beyond coverage and override, `BackendTargets` and `ResolvableBackendKind`: lookups over one loop.
- Single-object checks and simple lookups (weights, endpoints, retries, ports, duplicate names, dangling backends, certificates, GatewayClasses, ListenerSet parents and policy targets): reading one loop settles each.
- RouteMatch.KeyIsCanonical: covers matches whose fields hold no separator; beyond them it is settled match by match (`MatchMeaning.KeyIdentifiesIffBarePath`), not pair by pair. Path types with a colon are not treated there: the Gateway API has none.
