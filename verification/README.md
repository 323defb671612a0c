# Verified model of the HyperFleet end-to-end test framework

The HyperFleet e2e suite drives a deployed API through a framework of its own: a table of entity kinds, a configuration
overlay, child-first teardown, a drift report, a token issuer for test identities, latency verdicts, matchers over
adapter statuses, and a static checker of its own specs. This project models that framework in Dafny and proves what
its comments and tests promise.

- **Catalog** (`Descriptor.dfy`, `Forest.dfy`, `Acceptance.dfy`, `Rejection.dfy`, `Catalog.dfy`, `Paths.dfy`): which
  tables of kinds are accepted, said without walks or loops, and which problem is reported otherwise; that the random
  order of Go's map range, in which the catalog both reads and rewrites its entries, decides neither the verdict nor
  the result; that an accepted catalog is a forest; that no write a spec can make reaches the catalog; and that API
  paths can be parsed back.
- **Overlay** (`Overlay.dfy`, `OverlayTheorems.dfy`, `EntityTable.dfy`): configured adapters and timeouts laid over the
  suite's table, and exactly which configurations make a catalog unusable.
- **Teardown** (`Teardown.dfy`, `TeardownTheorems.dfy`, `TeardownReplies.dfy`): cleanup against an arbitrary server and
  clock. Every call records its requests in a log; the theorems hold of every log a call can leave.
- **Drift report** (`Drift.dfy`, `DriftLines.dfy`, `DriftTheorems.dfy`, `DriftReport.dfy`, `DriftOrder.dfy`,
  `Sorting.dfy`): the report is exact, and when row order does not change it.
- **Identities** (`Identity.dfy`, `TokenCache.dfy`, `Configuration.dfy`): which humans can be minted, what a cached
  token guarantees over every run, how often minting can happen, and what an accepted configuration guarantees.
- **Verdicts** (`Median.dfy`, `Matchers.dfy`, `AdapterNames.dfy`, `Capability.dfy`, `CapabilityReport.dfy`): median
  latency in int64 arithmetic, adapter-status matchers, condition-type names, and the static check of capability specs.
- `Sequences.dfy` and `Text.dfy` hold shared facts and the parts of Go's string packages the models use.

The code that updates state in place (the catalog, the teardown helper, the token issuer and its sources, the
matchers, the configuration, the rows of the overlay, the sorted samples) is modelled by classes, arrays and loops;
each method is tied to a function of the old state, and the theorems are about those functions. Where Go leaves an
order open, the model lets it be any order: ranges over maps pick the next key arbitrarily.

`dafny verify dfyconfig.toml` checks the project.

## Results that are not plain confirmations

- The verdict of `NewCatalog` and the catalog it builds do not depend on map order, but the reported error does: it is
  the same for every order exactly when at most one kind is rejected
  (`Descriptor.ReportOrderIrrelevantIffOneRejected`; two orphans of one unknown parent already report differently,
  `Descriptor.TwoOrphansReportDifferently`).
- When neither timeout of a kind decodes, Go's map order decides which field the error names. The two orders load alike
  exactly when the first row that does not load is not such a row (`OverlayTheorems.FieldOrderIrrelevantIff`, and for
  the suite's table `EntityTable.BareClusterTimeoutsReportEither`).
- Which lines the drift report has, before they are rendered as text, depends on the order of the deployed rows exactly
  when an expected kind has different rows, when rows of one kind have a plural and have none, or when two kinds share
  a plural (`DriftOrder.OrderIrrelevantIff`).
- For an even number of samples the median's sum can wrap. A majority of elapsed times below the threshold always
  passes; a majority at or above it fails exactly when the two middle samples can be added
  (`Median.MajorityAboveFailsIff`, with a concrete pass in `Median.OverflowCanPass`).
- Resource IDs are passed through unescaped. With slash-free IDs paths tell resources apart (`Paths.PathsDiffer`); with
  all IDs they do exactly when no kind has a parent (`Paths.AcceptedPathsInjectiveIff`).
- A cleanup that failed to delete a child returns no error exactly when a later child list answers 404
  (`TeardownTheorems.ChildFailureUnreportedIff`).
- The bound on mints needs lifetimes above the refresh margin: with less, a human can be minted any number of times in
  one instant, and with as much, once in each unit of time (`TokenCache.RateIsUnbounded`).
- A condition type can be turned back into its name exactly on names whose non-empty segments start lower-case and hold
  no upper-case letter (`AdapterNames.RecoveredIff`); another name shares the type of one of these exactly when its
  first non-empty segment, if any, starts with a letter (`AdapterNames.CollidesIff`).
- The comments at pkg/config/config.go:519-529 name the chart variables before the configuration file, line 473 names
  the file first; the code lets the file win (`Configuration.DefaultsFollowPriority`).
- A dry run does not check the run ID, so its default human is valid exactly when the run ID is a safe value
  (`Configuration.DryRunHumanMayBeInvalid`, and not without one, `DryRunWithoutRunID`).

## Model

| member | source | states |
|---|---|---|
| Descriptor.Validate | pkg/descriptor/descriptor.go:135-160 | No problem is reported exactly for rows with valid names, routing metadata that fits being a root or a child, and consistent timeouts |
| Descriptor.IndexRowsCorrect | pkg/descriptor/descriptor.go:63-75 | The first pass accepts exactly the rows with valid and pairwise distinct kinds and plurals, and then maps each kind to its row |
| Descriptor.RangeOutcome | pkg/descriptor/descriptor.go:76-104 | The second pass, in any order and despite writing rows back while it ranges, reports the first rejected kind it visits, judged on the table as it was before; with none rejected, every row is resolved |
| Descriptor.RangeOrderIrrelevant | pkg/descriptor/descriptor.go:76-104 | Two range orders agree on acceptance, and on the whole catalog when accepted |
| Descriptor.ReportOrderIrrelevantIff | pkg/descriptor/descriptor.go:76-104 | All orders report the same error exactly when all rejected kinds have the same problem |
| Descriptor.ReportOrderIrrelevantIffOneRejected | pkg/descriptor/descriptor.go:76-104 | On a table keyed by kind, as the range meets it, that is the case exactly when at most one kind is rejected |
| Descriptor.TwoOrphansReportDifferently | pkg/descriptor/descriptor.go:78-81 | Two kinds under one unknown parent are reported differently by different orders |
| Forest.WalkRejectsIffRevisits | pkg/descriptor/descriptor.go:90-96 | On every table, cyclic or with ancestors it does not know, the ancestor walk ends, and rejects a kind exactly when its parent chain meets some kind twice |
| Forest.WalksAcceptIffAcyclic | pkg/descriptor/descriptor.go:90-96 | All walks succeed exactly when some ranking puts every parent below its children |
| Forest.ChainsAreShort | pkg/descriptor/descriptor.go:76-96 | With known parents and successful walks, each parent chain ends within as many steps as there are kinds |
| Forest.AcceptedIffAcceptable | pkg/descriptor/descriptor.go:60-106 | For every map order, a table is accepted exactly when names are valid and distinct, parents exist with agreeing plurals, parenthood is acyclic, cleanup children belong to their kind and each row is well formed; the catalog is then the rows with parent plurals filled in |
| Forest.AcceptedIsForest | pkg/descriptor/descriptor.go:76-105 | In the accepted catalog itself every chain reaches a root within the number of kinds, without repetition, and a rank function exists |
| Acceptance.CatalogIsFilledIn | pkg/descriptor/descriptor.go:60-106 | For every map order the kinds of the catalog are those of the rows, and each has its row with every column as it was, except that a child's parent plural is the plural of its parent's row |
| Acceptance.NameColumns | pkg/descriptor/descriptor.go:65-67 | A row's name is usable exactly when its kind is not blank and its plural is a segment of the characters that URL escaping leaves alone |
| Acceptance.SettingsColumns | pkg/descriptor/descriptor.go:135-160 | What is asked of the timeouts, adapters and routing columns of a row |
| Acceptance.ValidColumns | pkg/descriptor/descriptor.go:135-160 | Validate passes exactly the rows whose names, parent plural included, and settings are in order |
| Acceptance.AcceptedColumns | pkg/descriptor/descriptor.go:60-106 | Acceptance, for every map order, said of the columns of the rows and of a ranking |
| Rejection.RowReportsFirst | pkg/descriptor/descriptor.go:76-102 | Of everything that is wrong with a row, the second pass reports the first in the order of its checks, a foreign cleanup child being the first of its list |
| Rejection.FirstProblemReported | pkg/descriptor/descriptor.go:63-104 | The reported problem is the first name problem, row by row in the table's order and check by check; without one, the first problem of the first kind of the range that has any |
| Catalogs.CloneList | pkg/descriptor/descriptor.go:126-130 | The copied list is new memory with the same contents |
| Catalogs.Clone | pkg/descriptor/descriptor.go:126-130 | The copy has the same contents and two lists of its own |
| Catalogs.Catalog.NewCatalog | pkg/descriptor/descriptor.go:60-106 | The call succeeds exactly for acceptable rows; the catalog then has exactly their kinds, over lists of its own, and every column of a row as it was but for a child's parent plural, which is its parent's plural; a failure reports the first problem there is for the order the range took |
| Catalogs.Catalog.Index | pkg/descriptor/descriptor.go:61-75 | From an empty catalog, the first loop computes the indexed table or the first name problem, over new copies |
| Catalogs.Catalog.AdmitAll | pkg/descriptor/descriptor.go:63-75 | The loop admits the rows in order until one is refused, and the catalog comes to own new lists only |
| Catalogs.Catalog.Admit | pkg/descriptor/descriptor.go:64-74 | One row is added under its kind, or refused with the catalog unchanged |
| Catalogs.Catalog.Store | pkg/descriptor/descriptor.go:74 | The stored row is a copy: the catalog gains only new lists |
| Catalogs.Catalog.Replace | pkg/descriptor/descriptor.go:103 | Writing a resolved row back changes that kind alone and the set of owned lists not at all |
| Catalogs.Catalog.ResolveEntry | pkg/descriptor/descriptor.go:77-102 | The checks of one kind give the first problem in the source's order, and otherwise the row with its parent's plural and every other column as it was |
| Catalogs.Catalog.WalkAncestors | pkg/descriptor/descriptor.go:90-96 | The loop over ancestors ends on every table and decides whether the chain reaches a root without repetition |
| Catalogs.Catalog.FindForeignChild | pkg/descriptor/descriptor.go:97-102 | The first cleanup child that is unknown or belongs to another kind is found |
| Catalogs.Catalog.Visit | pkg/descriptor/descriptor.go:76-104 | One iteration of the range resolves its kind or rejects it, and leaves the other kinds alone |
| Catalogs.Catalog.RangeAll | pkg/descriptor/descriptor.go:76-105 | The range, picking any remaining kind each time, ends with the outcome the rules give for that order |
| Catalogs.Catalog.Range | pkg/descriptor/descriptor.go:76-105 | After the first pass, the range completes the build of the table from its rows |
| Catalogs.Catalog.Lookup | pkg/descriptor/descriptor.go:108-115 | A kind is found exactly when it is in the catalog, and the caller gets its contents in two new, distinct lists |
| Catalogs.Act | pkg/descriptor/descriptor.go:54-56 | A lookup, or a write to any list a spec can reach, leaves the catalog as it was and everything reachable apart from it |
| Catalogs.RunScript | pkg/descriptor/descriptor.go:54-56 | Over any script of lookups and writes, each lookup answers what the catalog held at the start |
| Catalogs.RunSpec | pkg/descriptor/descriptor.go:54-56 | From building the catalog on, no run of writes to the input rows or to looked-up copies changes what a later lookup returns, which is the resolved row of its kind |
| Paths.AcceptedIsRoutable | pkg/descriptor/descriptor.go:69-73 | Acceptance gives slash-free plurals, one kind each, and slash-free parent plurals |
| Paths.ParseInvertsIffPlain | pkg/descriptor/descriptor.go:162-177 | A parser that cuts at every slash gives back kind and IDs from a resource path exactly when the IDs hold no slash |
| Paths.PathsDiffer | pkg/descriptor/descriptor.go:162-173 | Resources with slash-free IDs have equal paths only if kind, parent ID and ID agree |
| Paths.PathsInjectiveIffAllRoots | pkg/descriptor/descriptor.go:162-173 | With IDs of every kind, slashes included, different resources have different paths exactly when no kind has a parent |
| Paths.AcceptedPathsInjectiveIff | pkg/descriptor/descriptor.go:162-173 | So on an accepted table resource paths are injective over all IDs exactly when all its rows are roots |
| Paths.ChildCollidesWithItself | pkg/descriptor/descriptor.go:162-173 | A slash can move from the ID of a child's parent into its own: two resources of any child kind share a path |
| Paths.SlashedIDsCollide | pkg/descriptor/descriptor.go:162-173 | A slash in a root's ID can spell the path of its child |
| Overlay.Fields | pkg/config/descriptor.go:223 | Every field is a non-empty run without comma or white space |
| Overlay.StringSlice | pkg/config/descriptor.go:217-233 | The names are the trimmed, non-blank values of the list or of the split string |
| Text.TrimIsSlice | pkg/config/descriptor.go:226-231 | Trimming cuts white space off both ends and nothing else |
| Overlay.TrimAll | pkg/config/descriptor.go:226-231 | The loop keeps the trimmed values, in order, and drops blank ones |
| Overlay.NamesAreTrimmed | pkg/config/descriptor.go:226-231 | No name is blank or padded |
| Overlay.NoNamesIff | pkg/config/descriptor.go:226-231 | There is no name exactly when every value is blank |
| Overlay.SeparatorsSeparate | pkg/config/descriptor.go:214-233 | A comma or white space ends a name; leading, repeated and trailing separators add none |
| Overlay.LeastUnknownIsLeast | pkg/config/descriptor.go:156-163 | The key an error names is unknown and the least of the unknown ones; none is named exactly when all are known |
| Overlay.FindUnknown | pkg/config/descriptor.go:156-163 | The loop over the sorted keys finds that key |
| Overlay.CheckSections | pkg/config/descriptor.go:150-164 | adapters is checked before timeouts; under timeouts the shared keys are allowed too |
| Overlay.CheckSection | pkg/config/descriptor.go:151-163 | A section that is not a map, or holds an unknown key, is refused |
| OverlayTheorems.LoadIgnoresKeyOrder | pkg/config/descriptor.go:156-163 | The order in which the configured maps yield their keys changes neither the overlaid rows nor the error, down to the key it names, for each order of the two timeout fields |
| OverlayTheorems.FieldOrderIrrelevantIff | pkg/config/descriptor.go:187-198 | The two orders of the timeout fields load the same rows or give the same error exactly when a section is refused, or the first row that does not load fails an earlier check or has at least one timeout that decodes |
| OverlayTheorems.TwoBareDurationsReportEither | pkg/config/descriptor.go:187-194 | With a bare duration for both timeouts of clusters, in any table whose rows before clusters are not configured, the error names one field or the other with the order of the range |
| Overlay.OverlayInPlace | pkg/config/descriptor.go:166-199 | The loop over the row array leaves every row overlaid, or reports the error of the first row that fails, each row ranging over its fields in an order of its own |
| Overlay.OverlayOne | pkg/config/descriptor.go:167-198 | One row is overlaid and no other row is touched |
| Overlay.OverlayTimeouts | pkg/config/descriptor.go:187-198 | In either field order, each non-zero timeout replaces the default of its own field and a zero one leaves it; the error names the first field of the order taken that does not decode |
| Overlay.LoadEntityCatalog | pkg/config/descriptor.go:145-201 | Loading gives the first key or decode error, field named, or else what NewCatalog makes of the overlaid rows; a catalog has exactly the kinds of the table, each with the configured names and non-zero durations in place of its defaults and its other columns as they were |
| Overlay.RowIsConfigured | pkg/config/descriptor.go:167-198 | Set adapters replace a row's list by the names they give, and a non-zero timeout its own field; nothing else of the row changes |
| Overlay.CatalogIsConfigured | pkg/config/descriptor.go:145-201 | So it is for every row of a catalog built from the overlaid rows |
| OverlayTheorems.LoadsIff | pkg/config/descriptor.go:145-198 | The rows load exactly when both sections are maps of the table's keys, or shared ones under timeouts, set adapters name something, a kind's timeouts are a map of the two fields, and both decode |
| OverlayTheorems.LoadErrorIs | pkg/config/descriptor.go:145-198 | A failed load names, of adapters before timeouts, the section or its least misplaced key; else, of the first kind in table order that does not fit, adapters before timeouts, the least unknown field, or the first field of the order taken that does not decode |
| OverlayTheorems.RejectedIffBroken | pkg/config/descriptor.go:166-200 | Over an accepted table, the overlaid catalog is rejected exactly when a timeout ends negative or a kind given adapters ends without a reconciled timeout |
| OverlayTheorems.RejectionBlamesConfig | pkg/config/descriptor.go:166-200 | The rejection names one of those two causes in every map order: configuration cannot break routing or hard-delete waiting |
| OverlayTheorems.OverlayKeepsRouting | pkg/config/descriptor.go:166-199 | The overlay changes adapters and timeouts and nothing else |
| OverlayTheorems.UntouchedRowStays | pkg/config/descriptor.go:166-199 | A kind with nothing configured keeps its defaults |
| OverlayTheorems.OverlaysCompose | pkg/config/descriptor.go:166-199 | Configuring some kinds and then others is configuring them together |
| OverlayTheorems.OverlaysCommute | pkg/config/descriptor.go:166-199 | Overlays on different kinds commute |
| EntityTable.TableIsAccepted | pkg/config/descriptor.go:52-127 | NewCatalog accepts the suite's own table, whatever order it ranges in |
| EntityTable.LoadRejectedIffBroken | pkg/config/descriptor.go:145-201 | Whatever is configured and decodes, the suite's own catalog is rejected exactly when a timeout ends negative or a kind given adapters ends without a reconciled timeout |
| EntityTable.BareClusterTimeoutsReportEither | pkg/config/descriptor.go:187-194 | So it does when the suite's own table is loaded with nothing else configured |
| Teardown.Helper.Send | pkg/helper/resource.go:92-96 | A request is logged with the reply the server gives after everything logged before |
| Teardown.Helper.CleanupChildren | pkg/helper/resource.go:73-111 | The log grows by one list per child kind in order, each followed by one delete per live child in list order, until a kind is unknown or a list fails; the first child-delete failure is kept |
| Teardown.Helper.CleanupKind | pkg/helper/resource.go:78-108 | One child kind: its list, its deletes, and what of it the caller must know |
| Teardown.Helper.DeleteLive | pkg/helper/resource.go:88-108 | Every child that is not deleted and has an ID is deleted once, in list order; failures do not stop the loop and the first is kept |
| Teardown.Helper.PollHardDeletion | pkg/helper/resource.go:113-136 | With a positive interval the loop ends; polls begin before the deadline, an interval apart, and the result is read off the last one |
| Teardown.Helper.CleanupTestResource | pkg/helper/resource.go:39-68 | Every call leaves a valid run in the log and returns the error that run calls for, which TeardownReplies reads off the replies |
| TeardownTheorems.ChildRequests | pkg/helper/resource.go:78-108 | Kinds are listed once each in order, and the deleted children are exactly the listed live ones, with kind and ID, in list order |
| TeardownTheorems.ListFailureEnds | pkg/helper/resource.go:79-87 | Only the last request about children can be a failed list, and then it is what ended the walk |
| TeardownTheorems.RequestOrder | pkg/helper/resource.go:46-67 | The parent is deleted once, after everything about its children, exactly when all child kinds are known and all lists succeeded; polls follow only an accepted delete that waits for hard-delete |
| TeardownTheorems.OneDeleteOfParent | pkg/helper/resource.go:46-55 | For a kind of an accepted catalog, whatever its ID and those the server lists hold, exactly one request deletes the parent's own path: the one after all those about its children, sent when the walk over them was complete |
| TeardownTheorems.SucceedsIff | pkg/helper/resource.go:46-67 | Cleanup succeeds exactly when a child list answered 404, or all child deletes were accepted or 404, the parent delete accepted or tolerated, and a required poll saw 404 |
| TeardownReplies.SucceedsOnReplies | pkg/helper/resource.go:46-67 | Cleanup succeeds exactly when the last child list answered 404; or every child delete was a readable 202 or a 404, and the parent's delete was a readable 202, with a final readable 404 of the poll where hard-deletion is waited for, or a 404 or a 409 that the entity's own flag for it excuses |
| TeardownReplies.ParentSentOnReplies | pkg/helper/resource.go:46-55 | The parent's delete is sent exactly when every child kind is known and every list was a readable 200 |
| TeardownReplies.ErrorOnReplies | pkg/helper/resource.go:39-136 | Each error is returned exactly when the replies are those it speaks of: an unknown child kind, a failed list, the parent's refused delete, the last poll, or, when nothing else failed, the first refused child delete |
| TeardownReplies.PollingIsTimed | pkg/helper/resource.go:121-134 | Polls fall within the entity's deleted timeout, an interval apart, and go on only after readable statuses below 400 |
| TeardownReplies.GivingUpTakesTimeout | pkg/helper/resource.go:121-135 | Giving up takes at least that timeout |
| TeardownReplies.LiveIDsAre | pkg/helper/resource.go:88-92 | The children deleted are those that are not marked deleted and have an ID, each once and in list order |
| TeardownReplies.RequestsOnTheWire | pkg/helper/resource.go:46-132 | Lists and polls are GETs and deletes DELETEs, on plurals joined by slashes with the parent's plural and ID before a child's own |
| TeardownTheorems.ChildErrorComesLast | pkg/helper/resource.go:46-67 | A child-delete error is returned exactly when it is the first one and no list, parent delete or poll failed |
| TeardownTheorems.FirstFailureIsFirst | pkg/helper/resource.go:103-105 | The failure kept is that of the earliest failed child delete |
| TeardownTheorems.ChildFailureUnreportedIff | pkg/helper/resource.go:46-67 | When a child delete failed, cleanup returns no error exactly when a later child list answered 404 |
| TeardownTheorems.ChildFailureCanGoUnreported | pkg/helper/resource.go:46-52 | With two child kinds there is such a run |
| TeardownTheorems.ChildLookupsSucceed | pkg/descriptor/descriptor.go:97-102 | For a kind of an accepted catalog, no child lookup of a cleanup fails |
| TeardownTheorems.PollsAreBounded | pkg/helper/resource.go:121-134 | There are at most ceil(timeout / interval) polls, and none for a timeout that is not positive |
| TeardownTheorems.PollSucceedsIff | pkg/helper/resource.go:121-135 | Polling, all of it begun before the deadline, succeeds exactly when a poll answered 404 after only statuses below 400 |
| Sorting.Sort | pkg/helper/api_entity_config.go:75-78 | The result is a sorted permutation, which is all that slices.Sort and slices.SortFunc promise |
| Sorting.SortedOrderIsUnique | pkg/helper/api_entity_config.go:75-78 | Where the key tells elements apart there is one sorted order, so an unstable sort is deterministic |
| Drift.ApiEntityDiffs | pkg/helper/api_entity_config.go:68-104 | Without deployed rows there is one fixed line. Otherwise the report is an ascending part, the texts of the deployed rows' own lines, followed by the texts of exactly the lines the expected rows call for, by kind and field, when their kinds are distinct; every wrong deployed row and every differing field of an expected one has its sentence, values and all; and the order an unstable sort gives does not matter when a kind has one row |
| DriftReport.ReportInTwoParts | pkg/helper/api_entity_config.go:68-104 | The lines of the deployed rows come first, sorted as text, and those of the expected rows after them, sorted by kind and field |
| DriftReport.OwnerIff | pkg/helper/api_entity_config.go:129-135 | The row a taken plural is held against is the first with that plural among the first rows of their kinds |
| DriftReport.RowIsReported | pkg/helper/api_entity_config.go:110-139 | A deployed row without kind, of a kind already met, without plural, or with a plural an earlier kind has is reported in those words |
| DriftReport.ExpectedIsReported | pkg/helper/api_entity_config.go:81-102 | A missing kind and each of the three columns that differ are reported by name, deployed value before expected value |
| Drift.StructuralEntityDiffs | pkg/helper/api_entity_config.go:110-139 | The loop yields the sorted structural lines and the rows indexed by kind |
| Drift.IndexEntity | pkg/helper/api_entity_config.go:114-136 | One deployed row is indexed, or given its one structural line |
| Drift.CompareRows | pkg/helper/api_entity_config.go:81-102 | The loop appends the lines of each expected row |
| Drift.CompareFields | pkg/helper/api_entity_config.go:96-101 | The loop appends a line for each differing field, in field order |
| DriftTheorems.IndexFindsMatch | pkg/helper/api_entity_config.go:117-126 | An expected row is compared with the first deployed row of its kind, and with none for a blank kind |
| DriftTheorems.StructuralIsExact | pkg/helper/api_entity_config.go:114-136 | Each row's structural line is what looking back at the rows before it calls for; a plural is taken when an earlier row owns it |
| DriftTheorems.RowsAccountedFor | pkg/helper/api_entity_config.go:114-136 | Structural lines and usable plurals together number the deployed rows |
| DriftTheorems.ReportEmptyIff | pkg/helper/api_entity_config.go:68-139 | The report is empty exactly when there are deployed rows, their kinds and trimmed plurals are non-blank and distinct, and each expected row agrees with its match on all three fields |
| DriftTheorems.ComparisonIsExact | pkg/helper/api_entity_config.go:81-102 | The comparison lines are exactly the missing kinds and differing fields, in kind order and then field order |
| DriftTheorems.LinesInOrderAreDistinct | pkg/helper/api_entity_config.go:81-102 | So no line is reported twice |
| DriftTheorems.ExpectedOrderIrrelevant | pkg/helper/api_entity_config.go:65-78 | Permuting the expected rows, or an unstable sort, does not change the report when a kind has one row |
| DriftOrder.OrderIrrelevantIff | pkg/helper/api_entity_config.go:110-138 | Every order of the deployed rows gives the same structural lines, each as often, and the same comparison lines exactly when different rows of one kind are of a kind that is not expected, all with a plural or all without, and no two kinds share a plural |
| DriftOrder.LinesCounted | pkg/helper/api_entity_config.go:114-136 | Under that condition each structural line is reported as often as the rows call for as a multiset |
| DriftOrder.SharedPluralMatters | pkg/helper/api_entity_config.go:129-135 | Of two kinds that share a plural, the line names the one that came first, so their order changes the report |
| DriftOrder.MissingPluralMatters | pkg/helper/api_entity_config.go:119-128 | Of two rows of a kind, one without plural, the order decides whether the missing plural is reported |
| DriftOrder.ExpectedKindMatters | pkg/helper/api_entity_config.go:119-123 | Of two different rows of an expected kind, the order decides which is compared, and the comparison differs |
| DriftOrder.DeployedOrderIrrelevant | pkg/helper/api_entity_config.go:65-67 | Under that condition permuting the deployed rows does not change the rendered report |
| DriftTheorems.RepeatedKindOrderMatters | pkg/helper/api_entity_config.go:106-109 | When two rows of a kind are deployed and only one agrees with what is expected, their order changes the rendered report |
| Identity.ValidIff | pkg/identity/identity.go:53-77 | A human is valid exactly when its tenant model is known, subject and audience are safe values, and tenant and subtenant are safe or allowed to be absent |
| Identity.FirstFaultReported | pkg/identity/identity.go:53-77 | The error is the first, in the order of the checks, of what is wrong with the human, naming field and value |
| Identity.ClaimsOfModels | pkg/identity/identity.go:25-34 | The two known models and the names of their claims, none of which they share |
| Identity.SafeValueIff | pkg/identity/identity.go:53 | The characters a value may hold, and that it starts with a letter or digit |
| TokenCache.ReuseSource.Get | pkg/identity/mock.go:77 | A held token is served while at least the margin is left, otherwise one is minted and kept; a failed mint changes nothing |
| TokenCache.MockIssuer.TokenSource | pkg/identity/mock.go:71-80 | A human that has a source gets it; otherwise a new one is added, and the others stay as they are |
| TokenCache.MockIssuer.Mint | pkg/identity/mock.go:91-126 | An invalid human fails before anything is connected; otherwise one connection is made for that human |
| TokenCache.MockIssuer.Draw | pkg/identity/mock.go:77 | Drawing from a human's source is one step of the cache machine and touches no other source |
| TokenCache.MockIssuer.TokenFor | pkg/identity/mock.go:71-89 | Asking for a source and drawing from it are two steps of the machine, with the connections they make, and every human keeps its source |
| TokenCache.RunRequests | pkg/identity/mock.go:69-80 | Over every run of source and token requests, two of them are met by the same source exactly when their humans are equal |
| TokenCache.ServeAll | pkg/identity/mock.go:69-89 | Requests through one issuer are a run of the machine, each gets what the machine serves at that point, and a token is always the requesting human's |
| TokenCache.RunKeepsOwnTokens | pkg/identity/mock.go:69-89 | In every run each source holds only tokens of its own human |
| TokenCache.ServedTokenIsGood | pkg/identity/mock.go:69-89 | In every run a served token was minted for its human and is either fresh, for a valid human, or has the margin left |
| TokenCache.ServedIs | pkg/identity/mock.go:71-126 | A use is served the held token if it has no expiry or the margin is left; otherwise an invalid human fails unasked, and a valid one gets what the issuer mints or an error |
| TokenCache.NoExpiryLasts | pkg/identity/mock.go:77 | After a token without expiry every later use of its human is served that token |
| TokenCache.CachedWasFresh | pkg/identity/mock.go:77 | A cached token is the one the latest freshly served call of its human got |
| TokenCache.FailureLeavesCache | pkg/identity/mock.go:91-94 | A failed call leaves the cache unchanged, and an invalid human never connects |
| TokenCache.UsesAreLocal | pkg/identity/mock.go:71-80 | A use reads and writes the token of its own human only |
| TokenCache.MintsAreSpaced | pkg/identity/mock.go:69-77 | When tokens live at least L, two successful mints of a human in a row are more than L minus the margin apart |
| TokenCache.MintRateIsBounded | pkg/identity/mock.go:69-77 | With L above the margin, a window W holds at most W / (L - margin) + 1 successful mints of a human |
| TokenCache.MintedAgainIff | pkg/identity/mock.go:69-77 | A fresh token is minted again by the next use exactly when that begins with less than the margin left |
| TokenCache.RateIsUnbounded | pkg/identity/mock.go:69-77 | With lifetimes at most the margin there is no such bound: for every n a run mints n tokens of one human in one instant, or one in each unit of time when the lifetime equals the margin |
| Median.AverageExactIff | pkg/helper/perf.go:52 | The int64 average of two samples is exact exactly when their sum fits |
| Median.SortInPlace | pkg/helper/perf.go:48 | Sorting in place leaves the ascending permutation of the samples |
| Median.AssertMedianBelowThreshold | pkg/helper/perf.go:47-65 | Of an odd number of elapsed times more than half must be below the threshold; of an even number the two of the middle ranks must add up to less than twice the threshold, where their sum fits in an int64, and otherwise the wrapped sum is halved toward zero; the samples are left sorted |
| Median.RankedIff | pkg/helper/perf.go:48-53 | Exactly one value has each rank, and it is the sample at that position of the sorted ones |
| Median.VerdictIs | pkg/helper/perf.go:47-65 | The verdict by ranks holds of every non-empty list of elapsed times |
| Median.MeasureMedianLatency | pkg/helper/perf.go:30-41 | The samples are taken in index order, n of them, and judged by their ranks; a count that is not positive fails unsampled |
| Median.RankIff | pkg/helper/perf.go:50-53 | In ascending order the k-th sample is below a bound exactly when more than k samples are |
| Median.VerdictIgnoresOrder | pkg/helper/perf.go:47-65 | The verdict depends on the samples as a multiset only |
| Median.OddPassesIffMajorityBelow | pkg/helper/perf.go:50-65 | For an odd count the verdict is exactly the majority's, whatever the samples |
| Median.SmallSamplesFit | pkg/helper/perf.go:52 | Samples below 2^62 can always be averaged |
| Median.MajorityBelowPasses | pkg/helper/perf.go:47-65 | More than half of the elapsed times below the threshold force a pass, for odd and even counts and without a bound on the times |
| Median.MajorityAboveFailsIff | pkg/helper/perf.go:47-65 | More than half at or above it force a failure exactly when the two middle samples can be added |
| Median.OverflowCanPass | pkg/helper/perf.go:52 | Two samples of the longest duration pass a 50ms threshold |
| Median.FewOutliersCannotMoveMedian | pkg/helper/perf.go:47-53 | Changing fewer than half of the samples keeps the median between the least and greatest of the others exactly when the two middle samples can still be added |
| Matchers.FindCondition | pkg/helper/matchers.go:211-218 | The scan finds a condition exactly when one has this type and status |
| Matchers.IndexByAdapter | pkg/helper/matchers.go:84-87 | The index holds, for each adapter, the last status in the list, and no adapter that has none |
| Matchers.GenerationMatcher.Match | pkg/helper/matchers.go:125-160 | The matcher accepts a list exactly when each required adapter's latest status has the generation and Applied, Available and Health True; the failures are those of this list, whatever an earlier call left behind; other arguments are errors |
| Matchers.ConditionMatcher.Match | pkg/helper/matchers.go:74-100 | The matcher accepts a list exactly when each required adapter's latest status has the condition; the missing adapters are those of this list, whatever an earlier call left behind; other arguments are errors |
| Matchers.MatchesIffAtGeneration | pkg/helper/matchers.go:125-160 | A list matches exactly when the last status of each required adapter has the generation and all three conditions True |
| Matchers.NoFailuresIff | pkg/helper/matchers.go:125-160 | The same, said of positions in the list and of the three conditions by name |
| Matchers.FailuresOfOne | pkg/helper/matchers.go:142-159 | One adapter is not found, or at another generation, which is named, or gets a failure for each of the three conditions it lacks, in order |
| Matchers.FailuresInOrder | pkg/helper/matchers.go:142-159 | Several adapters get theirs in the order they are required |
| Matchers.OneGeneration | pkg/helper/matchers.go:125-160 | A list matches at most one generation when adapters are required |
| Matchers.GapsEmptyIff | pkg/helper/matchers.go:74-100 | The condition matcher accepts exactly when the last status of each required adapter has the condition |
| Matchers.GapsOfOne | pkg/helper/matchers.go:89-98 | One adapter is not found, or lacks the condition, or is not mentioned |
| Matchers.GapsInOrder | pkg/helper/matchers.go:89-98 | Several adapters are mentioned in the order they are required |
| Matchers.GenerationImpliesConditions | pkg/helper/matchers.go:125-160 | Matching at a generation implies the condition matcher for each of the three conditions |
| AdapterNames.AdapterNameToConditionType | pkg/helper/validation.go:66-79 | The builder loop converts a name without hyphens by upper-casing its first byte, and the bytes of Successful end every result |
| AdapterNames.TypeOfSegment | pkg/helper/validation.go:66-79 | A single segment's type is the segment with its first byte upper-cased, or U+FFFD for a byte beyond ASCII, and then Successful |
| AdapterNames.TypeOfHyphenated | pkg/helper/validation.go:67-76 | The type of a segment, a hyphen and a rest is the upper-cased segment before the type of the rest |
| AdapterNames.RecoveredIff | pkg/helper/validation.go:66-79 | Cutting a condition type before its capitals gives back the name exactly when the name is empty, or each segment is non-empty, starts with a lower-case letter and holds no upper-case one |
| AdapterNames.PlainNamesDoNotCollide | pkg/helper/validation.go:66-79 | Distinct names of that shape have distinct condition types |
| AdapterNames.CanonicalNameRecovered | pkg/helper/validation.go:66-79 | Canonical names, lower-case letters and digits in each segment, are given back |
| AdapterNames.CanonicalNamesDoNotCollide | pkg/helper/validation.go:66-79 | Distinct canonical adapters have distinct condition types |
| AdapterNames.EmptySegmentsIgnored | pkg/helper/validation.go:68-76 | Names that differ only in empty segments have the same condition type |
| AdapterNames.HandCapitalizedNamesCollide | pkg/helper/validation.go:66-79 | Replacing a hyphen by a capital gives another name with the same condition type |
| AdapterNames.SharesTypeIff | pkg/helper/validation.go:66-79 | A name has the condition type of a name that can be recovered exactly when it has no non-empty segment or its first such starts with a letter of either case, and that name is then the decoded one |
| AdapterNames.CollidesIff | pkg/helper/validation.go:66-79 | So it collides with another, recoverable name exactly when it is such a name and not recoverable itself |
| Configuration.Config.ApplyDefaults | pkg/config/config.go:441-590 | Applying the defaults keeps every field that is set, fills the others by the documented priority and with the fixed values, durations in nanoseconds, and would change nothing if done again |
| Configuration.DefaultsFollowPriority | pkg/config/config.go:472-564 | Each platform and deployment field is the first that is set of the configuration, its variable and its fallbacks, the API chart falling back to the adapter chart's configured ref and then its variable, and a token request to the installation's namespace |
| Configuration.FixedDefaults | pkg/config/config.go:441-590 | The value of each field that has a fixed default, the audit identity of each mode, and the account, audience and lifetime of a token request that is made |
| Configuration.AuditedAsDefaultHuman | pkg/config/config.go:286-309 | By default the audit identity expected of an identifying API is the default human's subject, and machine tokens are for that human's audience; the human's tenant is the run ID |
| Configuration.DefaultsKeepSetFields | pkg/config/config.go:439-441 | No field that is set changes, in any part of the configuration |
| Configuration.DefaultsAreIdempotent | pkg/config/config.go:439-590 | Applying the defaults twice is applying them once, although later ones read what earlier ones set |
| Configuration.Config.Finish | pkg/config/config.go:366-372 | Defaults come before validation, which accepts exactly the acceptable values and never ends in its service-account branch |
| Configuration.AcceptedIffAcceptable | pkg/config/config.go:593-690 | Validation accepts exactly known modes, models and brokers, positive durations, and outside a dry run an API URL, a label value of at most 63 characters as run ID, and, where the suite authenticates, token requests for the fixed account in the installation's own namespace |
| Configuration.FirstWrongIsReported | pkg/config/config.go:593-690 | The error is the first in the order of the checks that something is wrong for |
| Configuration.LabelValuesAreSafe | pkg/config/config.go:55 | Every label value is a safe identity value |
| Configuration.DefaultHumanValidIff | pkg/config/config.go:301-309 | The default human can be minted exactly when the tenant model is known and the run ID is a safe value |
| Configuration.AcceptedHumanIsValid | pkg/config/config.go:603-630 | Every configuration accepted outside a dry run has a default human that can be minted |
| Configuration.DryRunHumanMayBeInvalid | pkg/config/config.go:610-630 | In an accepted dry run it can be minted exactly when the unchecked run ID is a safe value |
| Configuration.DryRunWithoutRunID | pkg/config/config.go:610-630 | A dry run accepts the empty configuration, whose default human cannot be minted |
| Configuration.ServiceAccountNeverMissing | pkg/config/config.go:569-571 | Once defaults are applied, the last branch of Validate cannot be reached |
| Configuration.AcceptedPollsAreBounded | pkg/config/config.go:646-651 | An accepted poll interval is positive, so hard-delete polling is bounded by one request per interval |
| Capability.SpecProblems | pkg/labels/validate_test.go:223-308 | The checker lists every problem in source order, none exactly when ginkgo is imported by its own name, every container is where it belongs and every package-level Describe has its title and label, and counts the package-level Describes |
| CapabilityReport.ReportsExactly | pkg/labels/validate_test.go:223-308 | A problem is reported exactly when the file has what it complains of: a renamed import, a misplaced or repeated container by its own name, or a Describe whose title or labels are wrong in that way |
| CapabilityReport.ReportedInParts | pkg/labels/validate_test.go:223-308 | Imports are reported before package-level values, and these before what the walk finds |
| CapabilityReport.EveryCallIsSeen | pkg/labels/validate_test.go:269-273 | The walk sees every call in the tree and nothing else |
| CapabilityReport.ContainerNames | pkg/labels/validate_test.go:88 | Which functions are containers, with their focused, pending and skipped forms |
| CapabilityReport.CapabilityNameIff | pkg/labels/validate_test.go:86 | A capability's name is lower-case letters and digits with single hyphens between them |
| CapabilityReport.CapabilityTitleIff | pkg/labels/validate_test.go:86 | A title is the bracketed word Capability and such a name, a space, and a text that does not start with white space |
| Capability.ScanValues | pkg/labels/validate_test.go:231-256 | The loops over package-level values collect their calls, the Describes among them, and the misplaced containers |
| Capability.ScanValue | pkg/labels/validate_test.go:243-254 | One value is recorded, and reported when it is a container other than Describe |
| Capability.CollectInside | pkg/labels/validate_test.go:258-267 | The calls below the Describes, in any order, are those strictly inside one |
| Capability.WalkFile | pkg/labels/validate_test.go:269-306 | The walk reports each call's misplacement, or else a Describe's title and labels, in visiting order |
| Capability.PlacementFacts | pkg/labels/validate_test.go:231-267 | The three sets tell of each call of a tree whether it is a package-level value, a package-level Describe, or strictly inside one |
| Capability.CallProblemIsTreeProblem | pkg/labels/validate_test.go:269-283 | The checks on node identities give each call the problem its place in the tree calls for |
| Capability.UnitDecided | pkg/labels/validate_test.go:231-283 | A package-level value or other part of a file has no problem exactly when it is well placed |
| Capability.WalkDecides | pkg/labels/validate_test.go:231-306 | On every syntax tree the loops and the walk report nothing exactly when each container is a package-level Describe or a non-Describe container strictly inside one, and each package-level Describe is well titled |
| Capability.TitleProblemsEmptyIff | pkg/labels/validate_test.go:283-305 | No title or label problem is reported exactly when the first argument is a literal capability title and a later one is a ginkgo.Label naming labels.Capability |
| Capability.CheckTitle | pkg/labels/validate_test.go:283-305 | The checks of a Describe stop at a missing or unreadable title, and otherwise judge title and labels both |
| Capability.ExtractLabels | pkg/labels/validate_test.go:412-421 | The loop collects the labels of the Label calls among the arguments, in order |
| Capability.CheckImports | pkg/labels/validate_test.go:225-229 | Each import of ginkgo under another name is reported |

## Left out

- The HyperFleet protocol that the specs under `e2e/` observe (desire store, applier, adapters, generations): its code is not in this repository.
- Strings are sequences of code points (bytes in `AdapterNames`): invalid UTF-8 is not modelled, and a nil slice is an empty one.
- Errors are values such as `Problem`, `LoadError` and `Failure`; their message texts are not modelled, except for the lines of the drift report, whose `%q` quoting is a parameter.
- Overlay.OverlayTimeouts: the decode error behind the field it names is not modelled.
- Viper, YAML and mapstructure decoding: models start from decoded maps, lists and durations, and `entityKey` (lower-casing) is an arbitrary function of the kind.
- EntityTable.TableIsAccepted: the latency thresholds of the rows are arbitrary, because building the catalog does not read them.
- `url.PathEscape` appears as the set of characters it leaves alone in a path segment, and Go's regular expressions as predicates on characters.
- `slices.Sort`, `slices.SortFunc` and `slices.Clone` appear by their contracts; the sorting algorithms are not modelled.
- A nil `Catalog` and `MustGet`, which panics, are not modelled; a spec's write outside a list, which panics, changes nothing here.
- Teardown.Helper.CleanupTestResource: the catalog is a table of values (ownership is proved in `Catalogs`), contexts are never cancelled other than as a failed reply, and time passes by amounts an oracle chooses.
- Client requests appear as verb, path and reply: 202 accepts a delete, 200 a list (pkg/client/resource.go:162-193); bodies appear as readable or not.
- CreateTestResource, DeferCleanup, PollHTTPStatus as a Gomega helper, and logging.
- TokenCache.ReuseSource.Get: golang.org/x/oauth2 is not in this repository, so its reuse source is a stated contract: serve the held token while at least the margin is left. Tokens with an empty value are not modelled.
- TokenCache.MockIssuer.TokenFor: calls run one at a time, as under the issuer's and the source's locks; the token request, its parameters, scope and Host header are one opaque reply.
- The margin is a parameter; the code uses DefaultHTTPTimeout, 30 seconds (pkg/client/client.go:28).
- Capability.SpecProblems: the nesting of declarations, specs and values is flattened into a list of package-level values and other parts, and `strconv.Unquote` is the `unquoted` part of a literal.
- HaveResourceCondition, HaveAuditIdentity, the RFC 9457 matcher and failure messages: single scans without further structure.
- Configuration: gateway and machine-authorization helpers, `Display`, URL redaction and the validation of fields not listed in `ConfigError`.
- Label filters, thresholds, payload templates, Kubernetes, Helm, Pub/Sub and git helpers: input and output, or one-line computations.
