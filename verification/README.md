# Verification of the schema registry's core logic

This project models the parts of the registry that keep state or transform data, and proves what they promise over all
inputs and all runs. `dafny verify dfyconfig.toml` checks it.

## Layout

| file | what it models |
|---|---|
| `storage.dfy` | the in-memory store of one context: content by ID, live and soft-deleted versions, fingerprint index, ID counter |
| `registry.dfy`, `service.dfy` | registration, registration under an ID, bulk import and deletion, as step functions and as the object whose methods are proved against them |
| `integrity.dfy`, `latest.dfy`, `ids.dfy` | what every run of those steps keeps: referential integrity and ID freshness; references to the latest version; when new content gets an unused ID |
| `outcomes.dfy`, `importoutcomes.dfy`, `deletions.dfy` | what each registry operation answers and leaves behind, case by case, in terms of the stored versions |
| `history.dfy`, `versions.dfy`, `inheritance.dfy` | transitive compatibility and reserved fields step by step; no two versions alike; what a version inherits |
| `response.dfy`, `answers.dfy` | what a registration answers, and what becomes of it when it is sent back |
| `origins.dfy`, `sharing.dfy` | where stored texts come from, and the conditions on parsers and checkers under which the two promises hold over runs |
| `failing.dfy`, `exactness.dfy` | the runs that break the promises whenever those conditions are violated |
| `resolver.dfy`, `fingerprint.dfy`, `metadata.dfy` | reference resolution, the composite fingerprint, the three-layer merge |
| `compatibility.dfy` | the mode-driven fold of pairwise checks over a history |
| `editdistance.dfy`, `naming.dfy` | edit distance, fuzzy score, field-name normalisation and casing variants |
| `authcache.dfy`, `authservice.dfy`, `authoutcomes.dfy` | user and API-key authentication with its two caches, over storage that hands out copies or its own records; what each operation answers and does, in terms of the rows |
| `audit.dfy`, `webhook.dfy`, `auditcalls.dfy` | the concurrent audit pipeline: log queue, drain loop, webhook queue, batches, shutdown; and what its callers can rely on |
| `cef.dfy`, `cefevent.dfy`, `cefkeys.dfy` | which attribute stands under which key; escaping and printing of Common Event Format lines, and a reader for them (ArcSight CEF Implementation Standard, section "Character Encoding") |
| `confirmation.dfy` | single-use confirmation tokens and their collector |
| `ratelimit.dfy` | token buckets and the eviction of idle clients |
| `dependencies.dfy` | the depth-bounded reverse-dependency tree |
| `options.dfy`, `text.dfy` | an optional value; decimal printing and byte-wise string order |

State that the source updates in place is a class whose methods are proved against step functions; the theorems about
runs are lemmas about those functions. Concurrency is modelled as all sequences of enabled steps.

## Premises

- Referential integrity, transitive compatibility and reserved fields are about references with explicit versions (not
  -1, which means "latest"); `latest.dfy` drops this. Reference names contain no NUL bytes.
- Parsers, pairwise checkers, normalisation, password checks and JSON marshalling are parameters: arbitrary functions.
  Hashes are symbolic and therefore collision-free.
- Content is shared between subjects by fingerprint, so a registration that passed the gates may be bound to an earlier
  text. What the gates promise over runs therefore rests on conditions on parsers and checkers, `SharedTextsCarry` and
  `SharedFieldsCarry`, which mention no state and no run; for texts without references the conditions are exact.
- The 64-bit ID counter is not pushed over its end, and the largest 64-bit ID is not imported; `ids.dfy` drops the latter and
  says exactly when new content still gets an unused ID.
- Clocks are monotone, tokens and API keys are freshly drawn, login names sent by clients contain no colon.
- Over storage that hands out its own records, as the in-memory one does, the credential cache is invisible as long as no
  update is harmful; no premise is needed over storage that hands out copies.

## Findings

Promises that the code does not keep for all inputs, with a lemma that shows it and one that says exactly when it does.

| promise | source | shown by | exact condition |
|---|---|---|---|
| a transitive mode keeps all versions of a subject compatible | internal/storage/memory/store.go:207-225, internal/schema/avro/parser.go:282-311 | `ExactConditions.AliasEscapesTheGate` | `ExactConditions.TransitiveCompatibilityExactly` |
| reserved names are no top-level fields of live versions | internal/registry/registry.go:1486-1510 | `ExactConditions.FieldsViolationBreaks` | `ExactConditions.ReservedFieldsExactly` |
| a referenced schema cannot be deleted | internal/registry/registry.go:652-664, internal/storage/memory/store.go:965-990 | `LatestReferences.LatestTargetDeleted` | `LatestReferences.LatestReferencesResolve`, `LatestReferences.DeleteVersionExact` |
| the dependency tree shows every dependant within its depth | internal/mcp/tools_validation.go:295-319 | `Dependencies.DetourMisses` | `Dependencies.DepthPromiseExactly`, `Dependencies.FullTreeExactly` |
| a refused update of a user or an API key changes nothing | internal/auth/service.go:283-328, internal/auth/service.go:617-666, internal/storage/memory/store.go:1235-1264 | `Auth.RefusedPasswordStays`, `Auth.RefusedRoleStays` | `Auth.RefusedUpdateChangesNothing`, `Auth.RefusedKeyUpdateChangesNothing` |
| the credential cache answers as storage would | internal/auth/service.go:412-460, internal/auth/service.go:283-328 | `Auth.RefusedPasswordStays` | `Auth.CachesAreInvisibleExactly` |
| a cached credential belongs to one user name (for callers of the method; a request never carries a name with a colon, since Basic authentication splits at the first one, internal/auth/auth.go:206-210) | internal/auth/service.go:376-382 | `Auth.ColonNamesConfuse` | `Auth.ColonNamesCollide` |
| new content gets an unused ID | internal/registry/registry.go:299-318, internal/registry/registry.go:1290-1308, internal/storage/memory/store.go:207-230 | `SchemaIDs.LargestIsOverwritten`, `SchemaIDs.BulkImportHidesIDs` | `SchemaIDs.UnusedIDsExactly`, `SchemaIDs.LargestDecides` |
| different references have different fingerprints | internal/registry/registry.go:1534-1538 | `Fingerprints.BorderMoves`, `Fingerprints.NulNameCollides` | `Fingerprints.PieceSharedExactly`, `Fingerprints.OneReferenceSharedExactly` |
| a version that only inherits stores what its predecessor stores | internal/registry/registry.go:189-206, internal/registry/registry.go:1690-1720 | `Inheritance.StripUnsettles` | `Inheritance.InheritedRecordStays` |
| an answer sent back is recognised | internal/registry/registry.go:1655-1683, internal/storage/memory/store.go:418-437 | `RefusedAnswers.AnswerIsRefused`, `Responses.EmptyIsNotAnswered` | `Responses.AnswerComesBack` |
| evicting idle rate-limit buckets changes no answer | internal/auth/ratelimit.go:261-273 | `RateLimits.EvictionIsInvisible` | `RateLimits.EvictionIsInvisible` |
| casing variants of a name normalise back to it | internal/analysis/fuzzy.go:60-112 | `Naming.VariantsNormaliseBack` | `Naming.VariantsNormaliseBack` |
| every accepted audit event is accounted for after a clean shutdown | internal/auth/audit.go:374-402, internal/auth/audit.go:558-576 | `AuditCalls.LateEventIsLost` | `AuditCalls.NothingLostExactly` |

## Model

| member | source | states |
|---|---|---|
| `Integrity.ReferentialIntegrity` | internal/registry/registry.go:63-220 | Over every run of register, import, soft and permanent delete and config steps: references of live schemas name live schemas, the live reference graph has no cycle, resolving a live schema's references succeeds, every stored ID is below the next ID, and no registration reports unresolvable references of existing schemas |
| `Integrity.RunsAreSound` | internal/registry/registry.go:591-676 | Every state reached by any sequence of operations is sound: indexes agree, live references resolve, an order of dependency exists, and the ID counter is above every stored ID |
| `Integrity.HistoryNeverBroken` | internal/registry/registry.go:154-158 | In a sound state no registration can reach the branch that reports unresolvable references of an already registered schema |
| `Integrity.DeleteSubjectIsSound` | internal/registry/registry.go:591-620 | Deleting a subject, softly or permanently, keeps every invariant; the soft form because the guard found no live referrer of any version |
| `Integrity.DeleteVersionIsSound` | internal/registry/registry.go:623-676 | Deleting one version, softly or permanently, keeps every invariant |
| `Integrity.RegisterIsSound` | internal/registry/registry.go:63-220 | A registration whose references carry explicit versions keeps every invariant, also when it is bound to content already known by its fingerprint |
| `Integrity.RegisterWithIDIsSound` | internal/registry/registry.go:246-327 | A registration under a given ID keeps every invariant |
| `Integrity.ImportLoopIsSound` | internal/registry/registry.go:1184-1308 | A bulk import keeps every invariant, whatever mixture of its requests succeeds |
| `LatestReferences.LatestReferencesResolve` | internal/registry/registry.go:591-676 | Over every run, with references to explicit versions and to the latest: the references of all live schemas resolve at all times if and only if no deletion takes the last live version of a subject that a remaining live schema refers to as the latest |
| `LatestReferences.DeleteVersionExact` | internal/registry/registry.go:652-664 | Where everything resolves, soft-deleting an unreferenced version goes through, and everything still resolves exactly if its subject has another live version or no other live schema refers to its latest |
| `LatestReferences.DeleteSubjectExact` | internal/registry/registry.go:591-620 | After the soft deletion of a subject everything still resolves exactly if no live schema of another subject refers to its latest |
| `LatestReferences.LatestTargetDeleted` | internal/registry/registry.go:652-664 | For any two texts that parse: register a, register b with a reference to the latest of a's subject, soft-delete a; before the deletion b's references resolve, after it b is live and they do not |
| `Integrity.CreateIdsBelow` | internal/storage/memory/store.go:176-254 | New content gets an unused ID, and the counter stays above every ID exactly when it was below the largest 64-bit number |
| `Integrity.AdvancedNextIDExact` | internal/registry/registry.go:299-318 | With 64-bit wrap-around written out, the counter after an import is the larger of the old counter and one past the imported ID, never smaller |
| `Integrity.RegisterWithIDIdsBelow` | internal/registry/registry.go:299-326 | After a successful import under an ID the counter is above every stored ID exactly when that ID is not the largest 64-bit number |
| `Integrity.ImportSchemasIdsBelow` | internal/registry/registry.go:1290-1308 | After a bulk import the counter is above every stored ID exactly when the largest imported ID is below the largest 64-bit number |
| `SchemaIDs.UnusedIDsExactly` | internal/storage/memory/store.go:207-230 | From any state, new content gets an unused ID in every continuation that imports no ID as large as the largest and in which only the last registration may find the counter at its end, if and only if every stored ID is below the counter |
| `SchemaIDs.UnusedIDsAfterRun` | internal/storage/memory/store.go:207-230 | The same after every run, whatever 64-bit IDs it imported |
| `SchemaIDs.LargestDecides` | internal/registry/registry.go:299-318 | After a run that brings in the largest ID by single imports only, the counter is above every stored ID if and only if the largest ID is not stored |
| `SchemaIDs.LargestIsOverwritten` | internal/storage/memory/store.go:207-230 | Import the largest ID, import the one below it, register a new text: it takes the largest ID, and the version imported first reads the new text from then on |
| `SchemaIDs.BulkImportHidesIDs` | internal/registry/registry.go:1290-1308 | A bulk import that contains the largest ID leaves the counter below the other IDs it brings in |
| `SchemaIDs.ClashOverwrites` | internal/storage/memory/store.go:213-225 | New content under a taken ID replaces what every version with that ID reads |
| `Integrity.ImportLoopFacts` | internal/registry/registry.go:1184-1308 | Imported plus errors is the number of requests, results stand in request order under their own IDs, and the largest imported ID is stored |
| `Integrity.ImportedCountsSuccesses` | internal/registry/registry.go:1184-1308 | Imported is exactly the number of results without an error |
| `Integrity.WithRefsExact` | internal/registry/registry.go:144-165 | The history handed to the compatibility check exists exactly if every version's references resolve, and then lists the stored forms in version order |
| `SharedTexts.TransitiveCompatibility` | internal/registry/registry.go:133-173 | While a subject is registered into only under one transitive mode, without a group and without imports, every later live version is compatible in the required directions with every earlier live one, over all runs with deletions and any activity elsewhere; provided that texts of one parser fingerprint, over the same sources, can stand in for each other before the checkers (a condition on parsers and checkers alone) |
| `ExactConditions.TransitiveCompatibilityExactly` | internal/storage/memory/store.go:207-225 | Over all runs without references this holds if and only if, among the texts that can be live together, what the gate admits of a text the checker accepts of every text with its fingerprint |
| `ExactConditions.AliasEscapesTheGate` | internal/schema/avro/parser.go:282-311 | With a fingerprint that leaves aliases out and a checker that honours them, three registrations under BACKWARD_TRANSITIVE end in a subject whose second version cannot read the first |
| `Origins.RunsHaveOrigins` | internal/registry/registry.go:63-120 | After any run every stored content was parsed once, as submitted or as a normalised form, and its fingerprint is that of what was parsed |
| `History.GateAccepts` | internal/registry/registry.go:133-173 | A registration that passes a transitive mode's gate was accepted against every live version of its subject |
| `SharedTexts.ReservedFieldsStayReserved` | internal/registry/registry.go:175-206 | While validateFields stays on and the config layers leave the property alone, what a live version reserves every later live version reserves too and has as no top-level field; provided that texts of one parser fingerprint, normalised or not, have no more reservable fields than each other |
| `ExactConditions.ReservedFieldsExactly` | internal/registry/registry.go:1486-1510 | Over all runs without references this holds if and only if texts of one fingerprint have the same fields as far as a property can reserve them |
| `History.StoredReservesRequested` | internal/registry/registry.go:1690-1706 | The stored version reserves exactly what the request reserves |
| `History.ResolutionStable` | internal/registry/registry.go:1546-1590 | References that resolve within the live schemas resolve to the same list after any growth of the live schemas |
| `History.StepElsewhere` | internal/registry/registry.go:591-676 | An operation that adds nothing to a subject leaves its remaining live versions with the same content, metadata and resolved form |
| `History.CreateExtends` | internal/registry/registry.go:207-220 | A stored registration adds one live version above all others of its subject, bound to the content of its fingerprint, and changes no other |
| `Integrity.DeleteVersionIs` | internal/registry/registry.go:623-676 | Only a soft-deleted version is removed for good, only an unreferenced one is soft-deleted, and a refusal changes nothing |
| `Versions.VersionsAreDifferent` | internal/registry/registry.go:96-128 | Over every run without imports into a subject, any two of its live versions differ in schema fingerprint, metadata or rule set |
| `Versions.RepeatStoresNothing` | internal/registry/registry.go:96-128 | Registering the same request again right after it was stored stores nothing, whichever existing versions are found, if its merged metadata and rule set come out as before |
| `Versions.RepeatAnsweredExactly` | internal/registry/registry.go:207-220 | Given that merge, the repetition answers the stored version, whichever versions are found on the way, if and only if no other live version has its fingerprint, the request does not insist on another version, and it is recognised or passes the gate again |
| `Inheritance.RepeatMergesAlike` | internal/registry/registry.go:1690-1720 | The merge comes out as before if the request brings its own, or if what it inherits through the config layers stays |
| `Responses.AnswerIsRecognised` | internal/registry/registry.go:1655-1683 | A request that carries what a registration answered, with the version filled in, is a repeat of exactly that version, unless the stored properties are present but empty: then of none |
| `Responses.AnswerComesBack` | internal/registry/registry.go:110-131 | Sending such an answer back finds the same version and stores nothing, whichever versions the map yields, if and only if no other live version has the fingerprint and the stored properties are not present but empty |
| `Responses.OtherIsFound` | internal/storage/memory/store.go:418-437 | If the map yields another live version with the fingerprint, the answer is found to be neither that version nor its own |
| `RefusedAnswers.AnswerIsRefused` | internal/storage/memory/store.go:418-437 | For every text: registered under two metadata it is two versions, and what the first registration answered, sent back, is recognised if the map yields the first version and refused as already existing if it yields the second |
| `Responses.PopulatedComesBack` | internal/registry/registry.go:1629-1683 | Stripping the control property undoes filling it in, exactly unless the stored properties are present but empty |
| `Responses.AutoPopulateConfluentVersion` | internal/registry/registry.go:1659-1683 | The method copies the metadata and fills in the version; a record without a version keeps its metadata |
| `Versions.StoredIsLatest` | internal/registry/registry.go:200-206 | The version just stored is the one the next registration inherits from |
| `Integrity.ImportNeverOverwrites` | internal/storage/memory/store.go:886-951 | An import goes through exactly if its version is free and its ID is free or holds the same content; existing versions and content are never changed |
| `Resolver.ResolveExact` | internal/registry/registry.go:1546-1590 | Resolution fails exactly if some reachable key is missing; otherwise it lists every reachable key exactly once with its stored text, cycles included |
| `Resolver.ResolveOrdersDependencies` | internal/registry/registry.go:1546-1590 | On acyclic data every resolved reference stands after everything it depends on |
| `Resolver.AcyclicRanked` | internal/registry/registry.go:1546-1590 | A finite reference graph without cycles has a rank that falls along every reference |
| `Resolver.RankedAcyclic` | internal/registry/registry.go:1546-1590 | A reference graph with a rank that falls along every reference has no cycle |
| `Resolver.KeyInjective` | internal/registry/registry.go:1560-1570 | The printed key subject:version identifies both, although subjects may contain colons |
| `Resolver.Walk.Run` | internal/registry/registry.go:1556-1590 | The recursive walk with its shared seen set and growing result list ends as the specification of the walk says; it terminates because unseen keys run out |
| `Resolver.ResolveReferences` | internal/registry/registry.go:1546-1590 | The resolved list, or the first missing reference, is what the specification says |
| `Fingerprints.FingerprintCanonical` | internal/registry/registry.go:1518-1540 | Two registrations share the composite fingerprint exactly if the schema fingerprints are equal and the reference lists are permutations of each other, given names without NUL |
| `Fingerprints.SortUnique` | internal/registry/registry.go:1524-1532 | The comparator is a total order on (name, subject, version), so the sorted copy does not depend on the sorting algorithm |
| `Fingerprints.PieceSharedExactly` | internal/registry/registry.go:1534-1538 | A reference shares its hashed piece with another reference exactly if its name or its subject contains NUL |
| `Fingerprints.OneReferenceSharedExactly` | internal/registry/registry.go:1518-1540 | So a schema with one reference shares its fingerprint with the same schema under another reference exactly in these cases |
| `Fingerprints.OneSideIsEnough` | internal/registry/registry.go:1518-1540 | Among lists of one length it is enough that one of them is without NUL: then equal fingerprints mean equal bodies and permuted lists, whatever the other holds |
| `Fingerprints.NulNameCollides` | internal/registry/registry.go:1534-1538 | Among lists of different length a name containing NUL makes one reference hash like two |
| `Fingerprints.ComputeGlobalFingerprint` | internal/registry/registry.go:1518-1540 | The loop hashes the schema fingerprint followed by the sorted references |
| `Metadatas.MergeRulesAssociative` | internal/registry/registry.go:1802-1838 | Merging rule lists is associative for all lists, duplicate names included |
| `Metadatas.MergeRulesIdentity` | internal/registry/registry.go:1802-1838 | The empty list is its identity on both sides |
| `Metadatas.MergeRulesIdempotent` | internal/registry/registry.go:1802-1838 | Merging a list into itself changes nothing exactly if every rule is the last of its name |
| `Metadatas.LastNamedMerged` | internal/registry/registry.go:1802-1838 | A merged list answers each name as the override does, or else as the base does |
| `Metadatas.MergeRules` | internal/registry/registry.go:1802-1838 | The loops over the name index and the seen set compute that merge |
| `Metadatas.MergeMetadataAssociative` | internal/registry/registry.go:1724-1778 | Merging metadata is associative |
| `Metadatas.MergeMetadataIdempotent` | internal/registry/registry.go:1724-1778 | Merging metadata into itself changes nothing exactly if its sensitive list is nil or non-empty without repeats |
| `Metadatas.MergeMetadata` | internal/registry/registry.go:1724-1778 | The method builds the merged tags, properties and the duplicate-free sensitive list |
| `Metadatas.InheritanceIsStable` | internal/registry/registry.go:1690-1706 | Before the control property is stripped: merging the layers into what they merged to changes nothing if and only if there is some metadata besides that of a single config layer, or the sensitive list of that layer is nil or non-empty without repeats |
| `Inheritance.KeptStays` | internal/registry/registry.go:189-206 | With the control property stripped: exactly which default, request and override give metadata that a request without metadata stores again |
| `Inheritance.InheritedRecordStays` | internal/registry/registry.go:189-206 | So a version registered without metadata and rule set right after another one, under unchanged config, stores that version's metadata in exactly these cases, and its rule set exactly if the rule sets are settled |
| `Inheritance.StripUnsettles` | internal/registry/registry.go:1629-1650 | A default layer with a control property and an empty sensitive list, and a request with empty metadata: nothing is stored first, an empty sensitive list next |
| `Metadatas.MergedTwice` | internal/registry/registry.go:1802-1838 | Merging default and override lists into their own merge changes nothing exactly if every rule named in only one of them is the last of its name there |
| `Metadatas.RuleInheritanceIsStable` | internal/registry/registry.go:1707-1720 | Likewise for its rule set, if and only if for each kind every rule that is named in one config layer only is the last of its name there |
| `Metadatas.LayersDecide` | internal/registry/registry.go:1690-1706 | Every property and tag of the stored metadata comes from the override, else from the request or what it inherits, else from the default |
| `Metadatas.RuleLayersDecide` | internal/registry/registry.go:1707-1720 | Every rule of each kind likewise, by name |
| `Compatibility.CheckAccepts` | internal/compatibility/checker.go:39-92 | Check accepts exactly if the mode is NONE, or there is no history, or a checker is registered and accepts every required direction against the schemas in scope |
| `Compatibility.Checker.Check` | internal/compatibility/checker.go:39-92 | The verdict is positive exactly when no message was added, and the messages are those of the failing pairs, in order |
| `Compatibility.ReportEmpty` | internal/compatibility/checker.go:60-90 | No message is collected exactly if every pair is accepted or failed without a message |
| `Compatibility.Result.AddMessage` | internal/compatibility/result.go:27-30 | Adding a message appends it and clears the verdict |
| `Compatibility.Result.Merge` | internal/compatibility/result.go:33-39 | Merging an incompatible result appends its messages and clears the verdict; a compatible one changes nothing |
| `Storage.Store.CreateSchema` | internal/storage/memory/store.go:176-254 | The new state and outcome are those of the specification: duplicate refused, known content shared, next version assigned |
| `Storage.Store.ImportSchema` | internal/storage/memory/store.go:886-951 | A taken subject version or an ID holding other content is refused without a change |
| `Storage.Store.DeleteSchema` | internal/storage/memory/store.go:513-564 | Soft deletion marks the version; permanent deletion demands the mark and drops content no version uses any more |
| `Storage.Store.DeleteSubject` | internal/storage/memory/store.go:597-676 | The same for all versions of a subject, returning their numbers in ascending order |
| `Storage.CreateKeepsWellFormed` | internal/storage/memory/store.go:176-254 | Storing keeps the fingerprint index, the users of each ID and the version counters in agreement |
| `Storage.ImportKeepsWellFormed` | internal/storage/memory/store.go:886-951 | Importing keeps the same agreement |
| `Storage.RemoveKeepsWellFormed` | internal/storage/memory/store.go:540-562 | Removing versions, with the content that no version is left to use, keeps the same agreement |
| `Storage.RemoveOrderFree` | internal/storage/memory/store.go:640-676 | Removing the versions of a subject one by one in any order equals removing them at once |
| `Storage.LookupGraphExact` | internal/storage/memory/store.go:275-332 | The lookup behind resolution finds exactly the live versions, with -1 as the latest |
| `Service.RegistryService.RegisterSchema` | internal/registry/registry.go:63-220 | The outcome, the store afterwards and the metadata of the answer are those of the specified step: repeat returned, gate applied, merged record stored, version filled in |
| `Service.RegistryService.RegisterSchemaWithID` | internal/registry/registry.go:246-327 | The same for a registration under a given ID |
| `Service.RegistryService.ImportAll` | internal/registry/registry.go:1184-1308 | The import loop with its counters and results computes the specified fold |
| `Service.RegistryService.DeleteSubject` | internal/registry/registry.go:591-620 | The loop over live versions refuses exactly if one of them is referenced |
| `Service.RegistryService.DeleteVersion` | internal/registry/registry.go:623-676 | Latest and explicit versions, soft and permanent, as specified |
| `EditDistance.LevenshteinDistance` | internal/analysis/fuzzy.go:9-38 | The two-row table with swapped buffers computes the recursive edit distance |
| `EditDistance.DistanceIsLeastCost` | internal/analysis/fuzzy.go:9-38 | That distance is the least number of insertions, deletions and substitutions of any edit script |
| `EditDistance.DistanceIsMetric` | internal/analysis/fuzzy.go:9-38 | It is zero exactly for equal strings, symmetric, satisfies the triangle inequality, and lies between the difference and the maximum of the lengths |
| `EditDistance.ScoreBounds` | internal/analysis/fuzzy.go:41-56 | The fuzzy score lies in [0,1], is symmetric, and is 1 exactly for strings equal after lower-casing |
| `EditDistance.FuzzyScore` | internal/analysis/fuzzy.go:41-56 | The method computes that score |
| `Naming.VariantsNormaliseBack` | internal/analysis/fuzzy.go:60-112 | For every ASCII name, all casing variants normalise back to its normal form exactly if each part but the first starts with a letter and each part but the last ends, once capitalised, in a small letter or a digit |
| `Naming.OrdinaryNamesNormaliseBack` | internal/analysis/fuzzy.go:60-112 | In particular for names whose parts have two or more small letters and digits and start with a letter |
| `Naming.SnakeIdempotent` | internal/analysis/fields.go:245-261 | Normalising twice is normalising once |
| `Naming.NormalizeFieldName` | internal/analysis/fields.go:245-261 | The loop computes the normal form; the snake-case function of the other file is the same loop |
| `Naming.NamingVariants` | internal/analysis/fuzzy.go:60-93 | The method returns the four variants without repeats, in order |
| `Naming.JoinOfSplit` | internal/analysis/fuzzy.go:61-67 | Joining the parts of a name gives the name back, and no part contains the separator |
| `Auth.CachesAreInvisible` | internal/auth/service.go:98-128 | Over every run of user and key operations without a harmful update, for storage that hands out copies or the stored records themselves, the cached service gives the answers of the service with both caches disabled: same acceptances, records, roles and refusals |
| `Auth.CachesAreInvisibleExactly` | internal/auth/service.go:283-328 | At every point of a run every credential is answered alike if and only if no update of the run is harmful: refused half-way, kept by a shared record, and leaving an unexpired cached credential that the changed, enabled record does not accept |
| `Auth.KeptPasswordsAreHarmless` | internal/auth/service.go:283-328 | No update is harmful in a run in which no refused update has changed a password |
| `Auth.CopiesAreHarmless` | internal/auth/service.go:283-328 | No update is harmful over a storage that hands out copies |
| `Auth.RefusedPasswordStays` | internal/storage/memory/store.go:1235-1264 | Check a credential, have an update with a new password and an invalid role refused, check again: over shared records the old password is still accepted with the cache and refused without it |
| `Auth.RefusedExactly` | internal/auth/service.go:290-316 | An update is refused exactly if some field is unacceptable, whatever the order of its fields |
| `Auth.UpdateSetsFields` | internal/auth/service.go:290-316 | An accepted update with one value per field sets every field it names, in any order |
| `Auth.RefusedUpdateChangesNothing` | internal/auth/service.go:283-328 | A refused user update leaves rows and caches as they were if and only if storage hands out copies or the record shows every field before the refused one already |
| `Auth.RefusedKeyUpdateChangesNothing` | internal/auth/service.go:617-666 | The same for refused API-key updates |
| `Auth.RefusedRoleStays` | internal/auth/service.go:617-666 | Over shared records a role that comes before a refused expiry stays, and the key answers with it, cached or not |
| `Auth.StepSteady` | internal/auth/service.go:167-209 | Every operation, harmful or not, keeps the rows and their indexes in agreement, each cached key equal to its row, and each cached credential under the name of a row it equals |
| `Auth.StepCoherent` | internal/auth/service.go:167-209 | Every operation that is not harmful also keeps each cached credential that would be accepted one that its row accepts |
| `Auth.StepFollowsRows` | internal/auth/service.go:412-614 | What an operation answers and does to storage is settled by the rows alone |
| `Auth.OneHashPerKey` | internal/auth/service.go:606-614 | Each key ID is cached under at most one hash, which is why stopping at the first match is enough |
| `Auth.CredKeyInjective` | internal/auth/service.go:376-382 | Names without a colon and passwords are determined by the cache key |
| `Auth.ColonNamesCollide` | internal/auth/service.go:376-382 | A name shares its cache key with another name exactly if it contains a colon |
| `Auth.ColonNamesConfuse` | internal/auth/service.go:412-460 | Once such a name has been accepted, the split form is answered from the cache as that user although storage would refuse it |
| `Auth.RevokedAtOnce` | internal/auth/service.go:687-702 | A revoked key is refused by the very next check |
| `Auth.PasswordChangedAtOnce` | internal/auth/service.go:344-372 | After a password change a name and password are accepted exactly if the new hash accepts them |
| `AuthServices.AuthService.ValidateCredentials` | internal/auth/service.go:412-460 | The method with its cache lookup, expiry and store answers as the specification and, on coherent caches, as the rows alone |
| `AuthServices.AuthService.ValidateAPIKey` | internal/auth/service.go:549-596 | The same for API keys |
| `AuthServices.AuthService.InvalidateAPIKeyCache` | internal/auth/service.go:606-614 | Deleting the first match in any iteration order leaves no entry with the ID |
| `AuthServices.AuthService.InvalidateUserCredCacheByID` | internal/auth/service.go:399-408 | Every entry of the user is deleted and no other |
| `AuthServices.AuthService.RefreshAPIKeyCache` | internal/auth/service.go:167-209 | The cache becomes exactly the listed keys by hash, or stays as it was if listing failed |
| `AuthServices.AuthService.UpdateUser` | internal/auth/service.go:283-328 | The loop over the fields stops at the first refused one; an accepted update writes the row and forgets the user's credentials, a refused one leaves its changes in a shared record |
| `AuthServices.AuthService.UpdateAPIKey` | internal/auth/service.go:617-666 | Likewise for keys: row written and cached copy forgotten, or a refused change left in a shared record and so in its cached copy |
| `AuthServices.AuthService.RotateAPIKey` | internal/auth/service.go:706-739 | New key created and cached, old key revoked |
| `AuditPipeline.RunKeeps` | internal/auth/audit.go:558-576 | At every point of every interleaving nothing is lost or reordered between the log queue, the drain loop, the webhook queue, the partial batch and the batches sent; queues stay bounded and batches have legal size |
| `AuditPipeline.CleanShutdown` | internal/auth/audit.go:374-402 | After a shutdown without a timer the batches together are exactly the data kept, in order, and every accepted event is in one batch, dropped, unserialisable, or was logged after the drain loop had ended |
| `AuditCalls.NothingLostExactly` | internal/auth/audit.go:374-402 | For any sequence of log calls, Close, and more log calls: in every interleaving with a clean shutdown every accepted event is sent in a batch, counted as dropped or not serialisable, if and only if no enabled event is logged after Close |
| `AuditCalls.LateEventIsLost` | internal/auth/audit.go:558-576 | Whatever else is logged, if an enabled event is logged after Close some clean run loses an accepted event |
| `AuditCalls.TimerCutsShort` | internal/auth/audit.go:386-396 | A shutdown cut short by its timer can leave an event in the queue that was logged before Close |
| `AuditPipeline.ShutdownNeverStuck` | internal/auth/audit.go:374-402 | Until closed, a closing pipeline can always take a step other than a timer |
| `AuditPipeline.ShutdownAdvances` | internal/auth/audit.go:374-402 | Every step of a closing pipeline other than logging and ticking lowers a bound on the steps left |
| `AuditPipeline.AuditLogger.Enqueue` | internal/auth/audit.go:485-513 | The queue afterwards is that of the pipeline's log step: an enabled event is queued if there is room and counted as dropped otherwise |
| `AuditPipeline.AuditLogger.Drain` | internal/auth/audit.go:558-576 | The inner loop after stop takes and writes every queued event in order |
| `Webhooks.DrainSendsAll` | internal/auth/audit_webhook.go:150-170 | The drain sends exactly what was accepted and unsent, in order, in batches of 1 to the batch size |
| `Webhooks.ReceiveKeeps` | internal/auth/audit_webhook.go:141-147 | Receiving one datum keeps the order of everything held and the batch sizes |
| `Webhooks.WebhookOutput.Write` | internal/auth/audit_webhook.go:91-106 | The datum is queued if there is room, otherwise dropped and counted |
| `Webhooks.WebhookOutput.Drain` | internal/auth/audit_webhook.go:152-170 | After the drain queue and partial batch are empty and the batches hold what all three held before, in order |
| `CefEvents.LineDeterminesEvent` | internal/auth/audit_format.go:21-99 | Two events print the same line exactly if they agree on every printed attribute, durations to the millisecond |
| `CefEvents.LineReadsBack` | internal/auth/audit_format.go:21-99 | A reader recovers the seven header fields and the ordered (key, value) list from every line |
| `CefEvents.LineBreaks` | internal/auth/audit_format.go:90-98 | Only an event type or description with a line break can break a record over two lines; no value can |
| `CefEvents.FormatCEF` | internal/auth/audit_format.go:21-99 | The printer, field by field over its string builder, writes the specified line, from which all fields can be read |
| `CefEvents.Builder.WriteExtField` | internal/auth/audit_format.go:279-287 | One more field, after a space unless it is the first |
| `CefEvents.PresentInjective` | internal/auth/audit_format.go:26-88 | Which optional fields were left out can be told from the fields present |
| `Cef.ExtensionReadsBack` | internal/auth/audit_format.go:270-287 | The fields can be read back whatever their values hold: spaces, equals signs, pipes, backslashes, line ends |
| `Cef.HeaderReadsBack` | internal/auth/audit_format.go:262-266 | The header fields can be read back, each up to the first unescaped pipe |
| `Cef.EscapeValueIsOnePass` | internal/auth/audit_format.go:270-276 | The four chained replacements equal one pass that maps each character on its own |
| `Cef.EscapeHeaderIsOnePass` | internal/auth/audit_format.go:262-266 | The two chained replacements of the header equal one pass that maps each character on its own |
| `Cef.EqualsAreEscaped` | internal/auth/audit_format.go:270-276 | Every equals sign in an escaped value follows an odd run of backslashes |
| `Cef.UnescapeInverts` | internal/auth/audit_format.go:270-276 | Undoing the escapes gives the value back |
| `Confirmations.SucceedsExactly` | internal/mcp/confirmation.go:51-92 | Over every run a validation succeeds exactly if an earlier call issued its token for the same tool and argument hash, it comes by the expiry, and the token has not succeeded before |
| `Confirmations.SucceedsOnce` | internal/mcp/confirmation.go:67-92 | A token succeeds at most once |
| `Confirmations.CollectorIsInvisible` | internal/mcp/confirmation.go:116-125 | Leaving out all collections changes the outcome of no validation |
| `Confirmations.ConfirmedWithinIssued` | internal/mcp/confirmation.go:51-92 | For every tool and argument hash, confirmations and still usable tokens never outnumber the tokens issued |
| `Confirmations.HashSeparatesArgs` | internal/mcp/confirmation.go:130-145 | With injective marshalling one tool's hashes agree exactly if the arguments agree outside dry_run and confirm_token |
| `Confirmations.ComputeArgsHash` | internal/mcp/confirmation.go:130-145 | The loop that drops the control fields computes that hash, with its fallback when marshalling fails |
| `Confirmations.ConfirmationStore.Validate` | internal/mcp/confirmation.go:67-92 | The verdict and the tokens afterwards, in the order of the checks |
| `Confirmations.ConfirmationStore.GC` | internal/mcp/confirmation.go:116-125 | Exactly the expired and used tokens are deleted, in any iteration order |
| `Confirmations.ConfirmationStore.ConfirmationCheck` | internal/mcp/confirmation.go:187-255 | A call that needs confirming goes through exactly if it presents a token that validates; a dry run issues one |
| `RateLimits.EvictionIsInvisible` | internal/auth/ratelimit.go:165-176 | Evicting buckets idle for longer than an age changes no answer in any run over any number of clients exactly if an empty bucket fills up within that age |
| `RateLimits.WindowBound` | internal/auth/ratelimit.go:91-111 | In any window of any run the requests allowed number at most the burst size plus what the window accrues |
| `RateLimits.AllowStaysInRange` | internal/auth/ratelimit.go:91-111 | The tokens stay between 0 and the burst size |
| `RateLimits.WindowConserves` | internal/auth/ratelimit.go:91-111 | Requests allowed and tokens left together fit in the burst size and the accrual |
| `RateLimits.TokenBucket.Allow` | internal/auth/ratelimit.go:91-111 | The method refills, caps, and takes one token if there is one |
| `RateLimits.RateLimiter.Request` | internal/auth/ratelimit.go:165-176 | Lookup or creation of the client's bucket, then allow; no other client's bucket changes |
| `RateLimits.RateLimiter.CleanupStaleClients` | internal/auth/ratelimit.go:261-273 | Exactly the stale buckets are deleted, in any iteration order |
| `Dependencies.TreeShowsDependants` | internal/mcp/tools_validation.go:281-319 | With a depth bound of at least the number of dependants the nodes are exactly the root and everything that depends on it, cycles or not |
| `Dependencies.DepthPromiseExactly` | internal/mcp/tools_validation.go:281-319 | For all numbers n of dependants and bounds d: every graph shows every dependant at most d references away if and only if d is at most two or at least n |
| `Dependencies.FullTreeExactly` | internal/mcp/tools_validation.go:281-319 | For all n and d: every graph with n dependants shows all of them if and only if d is at least n |
| `Dependencies.DetourMisses` | internal/mcp/tools_validation.go:295-319 | For every d from three up and every larger number of dependants there is a graph that hides a dependant d references away: a key met first on a longer path is not expanded again |
| `Dependencies.ExpandIsTrue` | internal/mcp/tools_validation.go:295-319 | Depths count up from the parent to at most the bound, and children are the node's referrers in order, or none |
| `Dependencies.ExpandedOnce` | internal/mcp/tools_validation.go:295-319 | No subject version is expanded twice |
| `Dependencies.DependencyWalk.BuildDependencyTree` | internal/mcp/tools_validation.go:295-319 | The recursive walk with its shared seen set builds the specified tree and terminates on cyclic data |
| `Dependencies.HandleGetDependencyGraph` | internal/mcp/tools_validation.go:281-293 | A bound that is not positive means 10 |
| `Outcomes.RegisteredIsCompatible` | internal/registry/registry.go:133-173 | Whatever the mode and the group: if a request is registered and the level is not NONE, every version in scope resolves, and every one that is compared with (all in scope for a transitive mode, otherwise the highest-numbered) is compatible in the directions of the mode |
| `Outcomes.RegisteredIsCompatibleUngrouped` | internal/registry/registry.go:133-173 | The same for a subject without a group: against every live version, or the highest-numbered one |
| `Outcomes.IncompatibleMeans` | internal/registry/registry.go:167-173 | A request is refused as incompatible only if there is no checker or some version that it is compared with is refused in a required direction |
| `Outcomes.RegisterGated` | internal/registry/registry.go:133-206 | A request that is not recognised is refused for an unresolvable history, an incompatible version or reserved fields exactly under these conditions, in this order, and otherwise stored |
| `Outcomes.GateExactly` | internal/registry/registry.go:1403-1433 | The gate's answer for every mode in terms of the versions in scope: all live ones or, with a group, those with the request's value of its property |
| `Outcomes.RegisterRefusesEarly` | internal/registry/registry.go:63-92 | Unknown types, unresolved references, unreadable texts and invalid rule sets are refused in this order and change nothing |
| `Outcomes.CandidateExactly` | internal/registry/registry.go:85-100 | What is compared and stored: the text as sent or its canonical form, normalised if the request or the deciding level says so, with the fingerprint of that |
| `Outcomes.RegisterRecognises` | internal/registry/registry.go:110-131 | A found version with the same fingerprint, metadata outside the control property and rule set, and not ruled out by a version the request insists on, is answered and nothing changes |
| `Outcomes.StrippedSameExactly` | internal/registry/registry.go:1609-1650 | Metadata compare equal after stripping the control property exactly if tags, sensitive list and all other properties agree, and both or neither have properties that are present but empty |
| `Outcomes.CreateExactly` | internal/storage/memory/store.go:176-254 | A record becomes the version after the subject's counter, under the ID of its fingerprint or else the next ID, unless a live version of the subject has its fingerprint, metadata and rule set |
| `Outcomes.StoreAsBefore` | internal/registry/registry.go:207-220 | In that case nothing is stored, and such a version is answered if the map yields it and the request does not insist on another one |
| `Outcomes.RecordExactly` | internal/registry/registry.go:189-206 | The stored metadata and rules come, name by name, from override, request or latest live version, and default; the control property goes |
| `Outcomes.ReservedExactly` | internal/registry/registry.go:1486-1510 | The reserved-field check passes exactly if no reserved name is a field and all that the highest live version reserves is reserved |
| `Outcomes.ConfigPrecedence` | internal/registry/registry.go:685-745 | After any setting or clearing: a subject's own configuration wins over its context's, that over the shared one, that over the default |
| `Outcomes.ConfigSetsOneLevel` | internal/registry/registry.go:685-745 | Setting or clearing one level leaves the other levels and everything stored as they are |
| `Outcomes.SwitchesFallThrough` | internal/registry/registry.go:996-1018 | normalize and validateFields are each decided by the first level that sets them |
| `Outcomes.LookupExactly` | internal/storage/memory/store.go:275-332 | A lookup answers the version itself if it is not deleted, for -1 the highest that is not, and otherwise says whether the subject or the version is missing |
| `ImportOutcomes.AutomaticVersion` | internal/registry/registry.go:270-327 | Without a version number a new text under a free ID is stored as one past the highest version that exists, soft-deleted ones included, or as 1, and that version reads the text |
| `ImportOutcomes.ExplicitVersion` | internal/registry/registry.go:270-327 | With a free version number it is stored as that version |
| `ImportOutcomes.TakenVersion` | internal/registry/registry.go:299-312 | A taken version number is answered if it is live and refused if it is deleted; nothing changes |
| `ImportOutcomes.ConflictingID` | internal/registry/registry.go:299-304 | An ID that holds other content is refused |
| `ImportOutcomes.RegisterWithIDRecognises` | internal/registry/registry.go:264-269 | A text that is live in the subject is answered with such a version |
| `ImportOutcomes.ImportOneExactly` | internal/registry/registry.go:1184-1288 | One schema of a bulk import: each error with its condition, in the order of the checks, or stored under its ID and number with counters and content as stated |
| `ImportOutcomes.ImportLoopExactly` | internal/registry/registry.go:1184-1288 | In a bulk import each schema meets the state that those before it leave, and its entry reports what happened to it |
| `Outcomes.GraphExactly` | internal/storage/memory/store.go:275-332 | References see of a live version its text and references, and under -1 those of the highest one |
| `Deletions.SoftDeleteSubjectExactly` | internal/registry/registry.go:591-620 | Refused if a live version is referenced, there is no version, or all are deleted; else every version is marked and the answer lists the ones that stood, ascending |
| `Deletions.PermanentDeleteSubjectExactly` | internal/storage/memory/store.go:597-680 | Refused while a version stands; else all versions go, with the content that nothing else uses and the subject's counter and configuration, and all are listed |
| `Deletions.SoftDeleteVersionExactly` | internal/registry/registry.go:640-676 | The version meant (for -1 the highest that stands) is marked deleted if it stands and is not referenced; each refusal with its condition |
| `Deletions.PermanentDeleteVersionExactly` | internal/registry/registry.go:623-640 | The version meant (for -1 the highest soft-deleted) goes for good if it is soft-deleted, with its content if nothing else uses it |
| `Resolver.ResolveInOrder` | internal/registry/registry.go:1556-1590 | References are taken from left to right: the first missing one is reported, and what comes before it is resolved first |
| `Resolver.ResolvedAreReferences` | internal/registry/registry.go:1556-1590 | Every resolved entry is one of the references or a reference of a resolved schema |
| `Fingerprints.SortOrder` | internal/registry/registry.go:1524-1532 | References are hashed by subject, then version, then name |
| `Fingerprints.HashedText` | internal/registry/registry.go:1534-1538 | Of each reference name, subject and version are hashed, each after a NUL |
| `Metadatas.MergeRulesExactly` | internal/registry/registry.go:1802-1838 | Base rules keep their places and give way to the last override of their name; overrides with new names follow in order |
| `Metadatas.MergeSensitiveGrows` | internal/registry/registry.go:1752-1778 | The merged sensitive list holds the base's names and then the override's, each where it first comes |
| `Compatibility.MessagesExactly` | internal/compatibility/checker.go:39-92 | The messages are exactly the checker's complaints in the directions of the mode, each with its position among the schemas compared: all for a transitive mode, otherwise the last alone |
| `AuthOutcomes.KeyAccepted` | internal/auth/service.go:549-597 | A raw key is accepted as a key if and only if that is the row filed under its digest, enabled, and not past its expiry |
| `AuthOutcomes.KeyRefused` | internal/auth/service.go:549-597 | Otherwise the error says, in this order, that there is no such row, that it is disabled, or that it has expired |
| `AuthOutcomes.CredentialsAccepted` | internal/auth/service.go:412-460 | Credentials are accepted as a user if and only if that is the row of the name, enabled, and its hash matches the password |
| `AuthOutcomes.CredentialsRefused` | internal/auth/service.go:412-460 | Otherwise the row is disabled, whatever the password; or there is no row or the password is wrong, with one error for both |
| `AuthOutcomes.CredentialsCached` | internal/auth/service.go:412-460 | An accepted credential is cached, for as long as before if it came from the cache; a refused one is forgotten; other entries stay |
| `AuthOutcomes.CreateUserExactly` | internal/auth/service.go:242-270 | A user is created with the given fields under an unused ID, or refused for role, hashing or name, each exactly under its condition |
| `AuthOutcomes.UpdateUserExactly` | internal/auth/service.go:283-328 | An update sets the named fields and no others and forgets the user's cached credentials; refused, the error is that of the first unacceptable field |
| `AuthOutcomes.ChangePasswordExactly` | internal/auth/service.go:344-373 | The hash changes exactly if the old password matches and the new one can be hashed, and then no credential of the user stays cached |
| `AuthOutcomes.DeleteUserExactly` | internal/auth/service.go:331-337 | The row goes, and every cached credential of the user |
| `AuthOutcomes.CreateKeyExactly` | internal/auth/service.go:463-546 | A key is created enabled with the given fields, or refused with the first of six objections |
| `AuthOutcomes.UpdateKeyExactly` | internal/auth/service.go:617-666 | As for users; a name may be kept or changed to one that no other key of the user has |
| `AuthOutcomes.RevokeKeyExactly` | internal/auth/service.go:687-703 | The row is disabled and nothing else in it changes; the cached copy goes |
| `AuthOutcomes.RotateKeyExactly` | internal/auth/service.go:706-741 | A key like the old one, under the new name and expiry, and the old one disabled; refused, nothing changes |
| `AuthOutcomes.RefreshExactly` | internal/auth/service.go:167-200 | A refresh that could list the keys leaves exactly the stored keys in the cache, each under its own digest |
| `RateLimits.RefusedExactly` | internal/auth/ratelimit.go:91-111 | In any run from a full bucket a request is refused if and only if with it the requests admitted in some window ending with it would exceed the burst size plus what the window accrues |
| `RateLimits.AllowAccounts` | internal/auth/ratelimit.go:91-111 | Tokens left, plus one if allowed, are the smaller of the burst size and what was there plus what accrued; allowed exactly if that is at least one |
| `RateLimits.ClientRefusedExactly` | internal/auth/ratelimit.go:165-176 | Whatever other clients do in between, a request is refused if and only if with it the client's own requests in some window ending with it would exceed that allowance |
| `CefKeys.LineShows` | internal/auth/audit_format.go:26-88 | What a reader of the line finds under each of the thirty keys: the attribute, present exactly if set, and the nine captions next to their values; nothing under any other key |
| `CefKeys.LineHeader` | internal/auth/audit_format.go:19-96 | The header: format version, vendor, product and its version, event type, description, severity |
| `Cef.EscapedCharacters` | internal/auth/audit_format.go:262-276 | In a value backslash, equals sign, line feed and carriage return are escaped, in the header backslash and pipe, and nothing else |
| `Responses.AnswerCarries` | internal/registry/registry.go:1655-1683 | The answer to a registration carries what its version is stored with, and that version's number under the control property |
| `EditDistance.ScoreExactly` | internal/analysis/fuzzy.go:41-57 | The score is the share of the longer string that need not be edited, after lower-casing, and 1 for two empty strings |
| `Naming.NormalFormGrows` | internal/analysis/fields.go:245-261 | The normal form, one character after another: '-', '.' and space become '_', a capital becomes small and is set off after a small letter or digit, everything else stays |
| `Naming.VariantsInOrder` | internal/analysis/fuzzy.go:60-94 | The snake, camel, Pascal and kebab forms of a name of several parts, in this order |
| `AuditCalls.AllIsSent` | internal/auth/audit.go:374-402 | If no more enabled events are logged than either queue holds, and none after Close, then in every interleaving with a clean shutdown the batches together are exactly the enabled events, serialised, in the order logged |
| `Webhooks.DrainFillsBatches` | internal/auth/audit_webhook.go:131-172 | Of the batches that a drain sends, all but the last have the full size |
| `Confirmations.VerdictExactly` | internal/mcp/confirmation.go:67-92 | Each verdict with its condition: unknown, expired, used, for another tool, for other arguments, accepted |
| `Confirmations.ValidationEffect` | internal/mcp/confirmation.go:67-92 | An accepted token is marked used, an expired one is forgotten, every other stays as it is |
| `Confirmations.CollectorKeeps` | internal/mcp/confirmation.go:116-125 | The collector keeps exactly the tokens that are neither used nor expired |

## Left out

- Registry.EffectiveConfig: the fallback order of settings is modelled for one context; the cross-context fallback for the context named __GLOBAL is not.
- Registry.FindByFingerprint: which of several versions with one fingerprint is found depends on map order in the source, so it is a free choice here.
- Service.RegistryService.RegisterSchema: of the answered record the metadata is modelled; its ID, version and text are the stored ones, and the errors' wording is not.
- SharedTexts.TransitiveCompatibility: with references the condition on parsers and checkers is sufficient; it is shown to be exact for runs without references.
- SharedTexts.ReservedFieldsStayReserved: likewise exact for runs without references.
- AuthServices.AuthService.UpdateUser: an update is the sequence in which the map yields its fields; values of a wrong type, which the source skips, are left out of it. Through a shared record only the caches are seen to change, not records that callers still hold.
- Storage.Store.CreateSchema: version numbers are unbounded integers; only schema IDs wrap at 64 bits.
- Storage.Store.DeleteSubject: the nested map of subjects and versions is one map, so that an emptied inner map and an absent one are the same.
- Metadatas.MergeRules: a nil rule list or tag list and an empty one are the same value; for maps and the sensitive list nil is kept apart.
- Metadatas.MergeMetadata: a rule is its name and one text for all its other fields.
- EditDistance.FuzzyScore: the score is over the reals; rounding of floating point is not modelled, and lower-casing is a parameter.
- Naming.NormalizeFieldName: only ASCII letters change case, as in the source for ASCII names; multi-byte characters are not modelled.
- AuthServices.AuthService.ValidateAPIKey: the last-used timestamp and failing storage reads are not modelled; a failing list during a refresh is.
- Auth.InsertUser: storage assigns the ID and keeps its indexes; a changed username or key hash, which the service never writes, is not modelled. Deleting a user leaves its API keys.
- AuditPipeline.AuditLogger.Enqueue: other outputs than one webhook, the synchronous mode, metrics and log messages are not modelled.
- AuditCalls.NothingLostExactly: speaks of shutdowns without a timer; TimerCutsShort shows that with one even an event logged before Close can be left behind.
- Fingerprints.FingerprintCanonical: for lists in which several references contain NUL the exact collisions are not characterised; single references and lists of one length with one clean side are.
- AuditPipeline.After: handing a batch to the sender is one step and counts as delivery; retries, backoff and HTTP are not modelled. A shutdown timer may fire at any moment.
- CefEvents.FormatCEF: the description and severity tables are parameters, so the results hold for any tables; the timestamp is its RFC 3339 text. Attributes that the line does not print are not part of the event.
- Confirmations.ConfirmationStore.Generate: the preview stored with a token is not modelled; which calls need confirming is a parameter.
- RateLimits.TokenBucket.Allow: tokens and times are reals, and a new bucket is created at the time of its first request.
- RateLimits.RateLimiter.Request: global and per-endpoint buckets, which are never evicted, are the single-bucket case.
- Dependencies.HandleGetDependencyGraph: a failing lookup counts as no referrers, as in the source.
- Schema lookup, validation and formatting endpoints, subject listing, modes and global settings endpoints: easy members.
- Storage backends other than the in-memory one, key management, LDAP, OIDC, JWT and TLS: outside the modelled code.
- Pairwise checkers and parsers of Avro, Protobuf and JSON Schema: parameters of the model.
