# Catalog closures, receipts, archives and the catalog service, verified

This project models the parts of dalec-homebrew that decide what gets installed and what is
trusted: the closure resolver and the loop that ingests taps until the closure is complete, the
independent closure check and the comparison of closures, the overlay of signed and historical
dependency edges behind an installed receipt and the repair of such a receipt, the links of a
bottle archive, the scheduler and the store of the catalog service, the per-key locks of the
artifact cache, and two transformations of Formulae. The Go code that works by changing
variables is modelled by methods and classes with the same loops and fields, each proved
against a specification; the properties are proved of that specification.

`dafny verify dfyconfig.toml` checks everything.

## The pieces

| files | what they model |
|---|---|
| Digraph, DepthFirst, Sorting, Listing, Wrappers, Identity | paths, reachability and cycles; the marks of a depth-first search; sorting; Formula identities |
| Catalog, TapCatalogs, Mapping, Lookups, InstallOrder, Resolution | the resolver: catalog documents, mappings, lookups, expansion, install order |
| DocumentTerms | what a resolved closure says, in terms of the core snapshot and the documents alone |
| ClosureCheck, Canonical | the closure check, the canonical form and the comparison |
| MoreDocuments, Ingestion | what a request keeps when documents are added; the fixed-point loop over taps, with the payload's checks on reached taps |
| ReceiptGraph, ReceiptWalk, ReceiptPolicy, HistoricalCycle, ReceiptRepair | the dependencies an installed receipt must list, which cycles fail, and the repair |
| ReceiptMinimums, ReceiptFields | what minimum versions demand; what policies and receipts hold, field by field |
| LinkPaths, SymbolicLinks, HardLinks, ArchiveLinks, LinkLimits, Scanners | walks over the links of an archive, the symbolic and the hard links, the pass over both, what its limits refuse, the streaming scanners |
| Scheduler, ServiceRuns, ServiceRecords, CatalogService, Retention, Sequences | the catalog service as a state machine, its runs and records, its fields and methods, document retention, sequence numbers |
| KeyLocks | the reference-counted locks of the artifact cache |
| Conversion, SignedSpellings, BottleBlock | platform data to base plus variation; agreement of extractor and resolver on spellings; removal of the bottle block |

## What is assumed, and where code and text differ

- Core metadata, tap documents, version comparison, the prebuilt-archive policy, request
  cloning and every outcome of a disk operation are parameters. A disk write may also report an
  error after it took effect: `atomicWrite` renames before it syncs the directory.
- Digests, signatures and JSON are abstract. Canonical bytes are compared as canonical values, and
  a document's digest determines its publication time.
- Retention assumes one clock that never goes back, used for publication times and file times.
- Five properties one might expect are false. Each is stated with the exact condition under which
  it holds, and with inputs for which it fails.
  - *A link that has an end is accepted.* A symbolic link is accepted exactly when its walk over the
    scanned entries, up to the first link handled before it that leaves the keg, follows no link
    twice and at most the limit (`SymbolicLinks.LinkPasses`); when the walk stays in the archive the
    links handled before do not matter (`SymbolicLinks.InsidePasses`). A hard link is accepted exactly
    when the limit suffices to reach a file or a path behind a hard link handled before it
    (`HardLinks.HardlinkPasses`). See `LinkLimits.EndRejected` for a link that is refused though it
    has an end, and `LinkLimits.OrderMatters` for archives that are refused or accepted depending on
    the name of one link. This happens in every directory of the keg whose links may leave it, at
    every limit that lets the directory hold entries (the same limit bounds the depth of a path,
    internal/bottle/verify.go:632), for one below libexec and any authorized Formula in particular
    (`LinkLimits.OrderMattersInLibexec`).
  - *A stored pending operation runs or waits.* Each step of the service keeps this exactly when it
    does not abandon an operation: a save that is not followed by a start, or a release of an
    operation that is pending again (`Scheduler.Abandons`, `Scheduler.RunAttends`; see
    `Scheduler.PendingLeftBehind`, and `ServiceRuns.LeftBehindFromEmpty` for a run from an empty store).
  - *The resolver finds what the extractor signed for a spelling.* It does exactly when the signed
    identity is canonical: no mapping source, and in core the Formula's own name
    (`SignedSpellings.SignedIsFound`). A bare spelling always is (`SignedSpellings.BareIsFound`), a
    qualified one need not be (`SignedSpellings.AliasIsNotFound`).
  - *A converted Formula passes the catalog's own check.* It does exactly when no dependency is
    spelled by another core name and it is not keg-only on both architectures with different
    dependencies (`Conversion.WillBeRefused`; see `Conversion.KegOnlyOnBothRefused`).
  - *A cycle that is not through the root fails*, as the comment at
    internal/bottle/receipt.go:642-646 says. Exactly the cycles of signed edges fail
    (`HistoricalCycle.OnlySignedCyclesFail`); the walk passes over every cycle that holds a historical
    edge (see `HistoricalCycle.CycleNotThroughRoot`).

## Model

| member | source | states |
|---|---|---|
| Mapping.ResolveMapping | internal/catalogresolver/resolver.go:257-280 | the loop with its `active` set computes the end of the mapping walk and the taps touched |
| Mapping.FollowMeaning | internal/catalogresolver/resolver.go:257-280 | mapping fails exactly when the identity's orbit never leaves the mapping sources; otherwise the result lies on the orbit and is never a source |
| Mapping.FollowIdempotent | internal/catalogresolver/resolver.go:257-280 | following a result again gives the same result |
| TapCatalogs.New | internal/catalogresolver/resolver.go:44-84 | a resolver is built with exactly the Formulae and mappings of its documents, and a refusal names a real reason |
| TapCatalogs.AcceptableHasNoReason | internal/catalogresolver/resolver.go:44-84 | documents a resolver can be built from give no reason for refusal, so building succeeds exactly when there is none |
| Lookups.LookupIdempotent | internal/catalogresolver/resolver.go:191-231 | looking up a found identity finds the same Formula under the same identity |
| Lookups.NormalizeCanonical | internal/catalogresolver/resolver.go:233-255 | what a dependency spelling leads to is canonical |
| Lookups.LookupFormula | internal/catalogresolver/resolver.go:191-231 | the lookup with its mapping loop and its set of used taps computes what the specification defines |
| Lookups.NormalizeDependency | internal/catalogresolver/resolver.go:233-255 | a spelling is looked up as written, or in core and then in the tap of its owner, with the taps used on the way |
| Lookups.LookupTouches | internal/catalogresolver/resolver.go:191-231 | a lookup records its own and its final tap, never core, and a missing tap is recorded, not core and without a document |
| Lookups.LookupMono | internal/catalogresolver/resolver.go:191-231 | with more documents a lookup touches no fewer taps and keeps what it found |
| Lookups.LookupFailsMono | internal/catalogresolver/resolver.go:191-231 | a lookup that fails for anything but a missing tap fails the same way with more documents |
| Lookups.SelectVariation | internal/catalogresolver/resolver.go:312-332 | the loop over variations computes the selection the specification defines |
| DocumentTerms.CoreLookupMeaning | internal/homebrew/metadata/catalog.go:762-803 | a name finds exactly the enabled, bottled core Formula it stands for: itself, or unless versioned its alias, else its old name, else its migration |
| DocumentTerms.LookupMeaning | internal/catalogresolver/resolver.go:191-231 | a lookup finds exactly what the orbit of mappings ends at and core or the document of its tap holds |
| DocumentTerms.CanonicalMeaning | internal/catalogresolver/resolver.go:191-231 | an identity is found under itself exactly when core has it under this name, or its document lists it and nothing maps it away |
| DocumentTerms.NormalizeMeaning | internal/catalogresolver/resolver.go:233-255 | a bare spelling means a core name where core has it, and a name of the owner's tap only where core does not know it |
| DocumentTerms.ChooseMeaning | internal/catalogresolver/resolver.go:312-332 | a tag is unavailable exactly when some variation says so; otherwise the last override of the dependencies and of keg-only applies |
| Catalog.PkgVersionMeaning | internal/catalogresolver/resolver.go:503-508 | a package version is the version and, for a positive revision, an underscore and its decimal digits |
| InstallOrder.Topo | internal/catalogresolver/resolver.go:448-486 | fails exactly when the roots reach a cycle, and then returns a real one; otherwise lists each reached node once after its dependencies |
| InstallOrder.Visitor.Visit | internal/catalogresolver/resolver.go:448-486 | keeps the marks, the stack as a path and the order closed under dependencies; reports only real cycles |
| Resolution.Expand | internal/catalogresolver/resolver.go:118-166 | the queue loop ends and collects exactly what the roots need, within the limit, with the taps used |
| Resolution.Resolve | internal/catalogresolver/resolver.go:89-183 | success gives exactly the needed nodes in a sound order, accepted by the independent check; every error is true of the request and never the one about a non-canonical queue entry |
| Resolution.ResolvedHasNoFault | internal/catalogresolver/resolver.go:89-183 | a request that resolves has no fault, so success and the errors exclude each other |
| Resolution.AssembledStructure | internal/catalogresolver/resolver.go:160-183 | whatever resolution assembles passes every structural part of the closure check |
| Resolution.CanonicalErrorsCannotOccur | internal/catalogresolver/resolver.go:130-136 | the two errors about queued identities cannot happen |
| DocumentTerms.ClosureInTerms | internal/catalogresolver/resolver.go:89-332 | every node of a closure has the fields, keg-only flag and requirements that the snapshot or a document gives for the platform; its Formula is enabled and has a bottle, or is a requested root with an authorized archive |
| DocumentTerms.RequirementOkMeaning | internal/catalog/validate.go:1001-1044 | the check of a resolved requirement passes exactly when its spelling is written canonically |
| DocumentTerms.ResolvedNodeOk | internal/catalog/validate.go:1001-1044 | the check of a resolved node passes exactly when its fields are sound, it does not require itself or anything twice, and every spelling is written canonically |
| MoreDocuments.FaultMono | internal/catalogresolver/resolver.go:89-183 | with more documents a request keeps every fault that is not a missing tap |
| Ingestion.Generate | internal/cataloggenerator/generator.go:92-164 | the loop ends, extracts only taps demanded by what it has so far, none twice and at most the limit; on success the documents are exactly the taps of the closures, each closure has one mapping for each core root and then each external root of its target; and every error is true |
| Ingestion.CompletedInTerms | internal/cataloggenerator/generator.go:92-164 | every node of every generated closure says what the documents say on the platform of its target, and every root resolves to what the mappings make of it |
| Ingestion.CompletableHasNoError | internal/cataloggenerator/generator.go:92-164 | if any extracted documents complete the request, no error but the deadline is true, and only taps of those documents are fetched |
| Ingestion.GenerateForPayload | internal/catalog/validate.go:652-671 | what generation returns leaves both reached-tap checks of the payload empty |
| Ingestion.MissingIsDemanded | internal/catalogresolver/resolver.go:191-231 | a missing tap reported by resolution is not core, has no document, and is one the request needs |
| Ingestion.DemandsMono | internal/cataloggenerator/generator.go:104-164 | what a request needs with some documents it still needs with more |
| Ingestion.IngestedIsReached | internal/cataloggenerator/generator.go:92-164 | every ingested tap is recorded by some closure, and every recorded tap is ingested |
| ClosureCheck.ValidateClosureResult | internal/catalog/validate.go:819-999 | accepts exactly the sound closures; a cycle report always comes with an order problem |
| ClosureCheck.AcceptedShape | internal/catalog/validate.go:839-999 | an accepted closure has no cycle and an order as long as its node list |
| ClosureCheck.AcceptedContains | internal/catalog/validate.go:819-999 | two accepted closures that agree on the dependencies of what they share contain the same nodes as far as their roots are the same: none is missing and none superfluous |
| ClosureCheck.DefaultsStandFor | internal/catalog/validate.go:755-775 | missing mappings stand for each root asked for by itself, missing taps for those of the nodes |
| ClosureCheck.AcceptedSpeaks | internal/catalog/validate.go:850-937 | an accepted closure lists the tap of every external node and requested mapping, never core, and its roots are exactly what its mappings lead to |
| ClosureCheck.OrderIsAcyclic | internal/catalog/validate.go:938-966 | an order with every dependency first rules out cycles |
| ClosureCheck.ValidateNode | internal/catalog/validate.go:1001-1044 | decides whether one node is well formed |
| ClosureCheck.Walk.Visit | internal/catalog/validate.go:967-992 | the walk visits only what the start reaches, and reports a cycle only where there is one |
| Canonical.Canonicalize | internal/catalog/canonical.go:371-411 | fills the defaults and sorts every list of a clone |
| Canonical.CanonicalStaysOk | internal/catalog/canonical.go:145-158 | canonicalizing a sound closure gives a sound closure, so the second check never fails |
| Canonical.CanonicalDecides | internal/catalog/canonical.go:371-411 | sound closures have equal canonical forms exactly when they are the same closure up to order and defaults |
| Canonical.CanonicalTwice | internal/catalog/canonical.go:371-411 | canonicalizing twice changes nothing |
| Canonical.CompareClosure | internal/catalog/compare.go:16-31 | succeeds exactly when both closures are sound and agree on the install order and, as sets, on roots, mappings, taps and nodes with their dependencies |
| ReceiptGraph.BuildIndex | internal/bottle/receipt.go:573-592 | indexes the closure by name and identity, or names a real fault |
| ReceiptGraph.CollectEdges | internal/bottle/receipt.go:647-704 | succeeds exactly on sound nodes, with the signed and the selected historical edges and their kinds |
| ReceiptGraph.HistoryFaithful | internal/bottle/receipt.go:810-827 | a valid tab keeps every entry under its identity |
| ReceiptWalk.ValidateCurrentGraph | internal/bottle/receipt.go:763-808 | passes only well-formed acyclic signed edges, and fails only with a real fault |
| ReceiptWalk.Walker.Visit | internal/bottle/receipt.go:621-745 | finishes only sound nodes the start reaches, each emitted once; a reported cycle is one of signed edges |
| ReceiptPolicy.ResolvedInstalledDependencies | internal/bottle/receipt.go:573-754 | success lists exactly the nodes other than the root reached over signed and historical direct edges, each once, sorted; errors are true, and never the cycle found during the walk |
| ReceiptPolicy.PolicyExcludesErrors | internal/bottle/receipt.go:573-754 | a closure that has a policy gives no error, so the computation succeeds exactly when there is a policy |
| ReceiptPolicy.PolicyUnique | internal/bottle/receipt.go:746-754 | a closure has at most one policy list |
| HistoricalCycle.OnlySignedCyclesFail | internal/bottle/receipt.go:573-754 | a closure that is otherwise sound is refused exactly when its signed edges have a cycle, wherever it is |
| HistoricalCycle.CycleNotThroughRoot | internal/bottle/receipt.go:642-646 | a closure whose root reaches a cycle it is not part of, and for which no error holds |
| ReceiptMinimums.MinimumMeaning | internal/bottle/receipt.go:829-848 | a minimum is met exactly when the selected version is later, or equal with a later revision than both required ones, or equal in both with at least the rebuild |
| ReceiptMinimums.NodeMeaning | internal/bottle/receipt.go:621-705 | a node is refused exactly when its tab is unsound, a signed edge contradicts or misses its minimum, or a selected direct entry of the tab is not met |
| ReceiptMinimums.PolicyMeetsMinimums | internal/bottle/receipt.go:573-754 | in a closure with a policy every edge of every reached node is met |
| ReceiptMinimums.LaterKeepsPolicy | internal/bottle/receipt.go:573-754 | replacing a selected node by a later version keeps the closure sound and the same nodes listed |
| ReceiptFields.WalkMeaning | internal/bottle/receipt.go:647-704 | the walk goes from a node exactly to those it signs and those its tab records as direct, and counts an edge as historical when it is not signed |
| ReceiptFields.PolicyInFields | internal/bottle/receipt.go:725-761 | the policy has an entry for exactly the reached nodes, with their name or full identity, version, revision, rebuild and package version, direct when the root signs or records it so |
| ReceiptRepair.CompareInstalled | internal/bottle/receipt.go:260-305 | decides valid lists of equal length whose members all match |
| ReceiptRepair.CompleteIsOnto | internal/bottle/receipt.go:260-305 | equal length and matching members give equal name sets, and nothing expected is missing |
| ReceiptRepair.PolicyIsValid | internal/bottle/receipt.go:359-372 | the policy list passes the dependency check |
| ReceiptRepair.VerifyInstalledReceipt | internal/bottle/receipt.go:561-571 | accepts exactly the receipts that are complete for the policy |
| ReceiptRepair.Normalize | internal/bottle/receipt.go:476-535 | leaves exactly the accepted receipts alone and completes exactly those that list a proper part of the policy; the rest of the receipt is untouched, emitted entries keep their versions, and the result is accepted, so a second run changes nothing |
| ReceiptFields.AcceptedInFields | internal/bottle/receipt.go:260-305 | a receipt is accepted exactly when its list is proper, as long as the policy, and agrees with it in name, version, revision, package version, and rebuild unless lost |
| ReceiptFields.AcceptedEntry | internal/bottle/receipt.go:286-305 | of an accepted receipt and the policy, any two entries of one name agree in these fields |
| ReceiptFields.RepairableInFields | internal/bottle/receipt.go:273-284 | a receipt is repaired exactly when its list is proper, shorter than the policy, and agrees with it |
| ReceiptFields.RepairKeepsEntries | internal/bottle/receipt.go:476-535 | every old entry is still there after a repair, with its version, revision and package version, and its rebuild unless lost |
| LinkPaths.ResolvesOnce | internal/bottle/verify.go:938-991 | a walk has one trace and one end |
| LinkPaths.EndsInKeg | internal/bottle/verify.go:938-991 | an end inside the archive is in the keg, with no link at it or above it |
| LinkPaths.EndIsFixed | internal/bottle/verify.go:938-991 | resolving the end again follows no link and gives the same end |
| LinkPaths.StaysInKeg | internal/bottle/verify.go:948-963 | no walk leaves the keg once inside, whether it ends, loops or is refused |
| LinkPaths.FollowsNearKeg | internal/bottle/verify.go:948-963 | every link a walk follows is in the keg or above it |
| LinkPaths.WalkResolves | internal/bottle/verify.go:938-991 | a walk that comes to an end step by step resolves to that end |
| LinkPaths.ResolvesWalks | internal/bottle/verify.go:938-991 | what resolves comes to its end step by step |
| LinkPaths.AnnotationsShorten | internal/bottle/verify.go:977-983 | after results are recorded in place, a walk ends as before, having followed the same links up to the first that holds its result |
| LinkPaths.AnnotationsFaithful | internal/bottle/verify.go:977-983 | a walk over recorded results is a walk over the scanned entries with the same end |
| LinkPaths.InsideNeverLeaves | internal/bottle/verify.go:938-991 | a walk that stays in the archive follows no link whose own walk leaves the keg |
| LinkPaths.InsideMeetsNone | internal/bottle/verify.go:977-983 | so it meets no recorded result |
| LinkPaths.AcceptsExactly | internal/bottle/verify.go:938-991 | over recorded results a walk is accepted exactly when the walk over the scanned entries, cut at the first recorded link, has no repeat and fits the limit |
| LinkPaths.AcceptsInside | internal/bottle/verify.go:938-991 | for an end inside the archive this is acceptance over the scanned entries |
| SymbolicLinks.ResolvePath | internal/bottle/verify.go:938-991 | ends; succeeds exactly when a walk follows no link twice and at most the limit, with that walk's end; for every outcome it stood only where the walk goes, and inside the keg once inside |
| SymbolicLinks.ResolveLink | internal/bottle/verify.go:993-1010 | over the results so far a link is accepted exactly when it passes, and gets the end of its walk over the scanned entries |
| SymbolicLinks.RecordedIsLeaving | internal/bottle/verify.go:993-1010 | the results recorded so far are those of the handled links that leave the keg |
| SymbolicLinks.InsidePasses | internal/bottle/verify.go:993-1010 | a link whose walk stays in the archive passes exactly when that walk has no repeat and fits the limit |
| SymbolicLinks.GoodPasses | internal/bottle/verify.go:993-1010 | a link accepted over the scanned entries alone passes whatever was handled before |
| ArchiveLinks.Archive.ResolveSymlinks | internal/bottle/verify.go:993-1010 | in any order, accepts exactly when every link passes in its place, and then each link has the end of its walk over the scanned entries |
| SymbolicLinks.LinkEndIsReal | internal/bottle/verify.go:926-1010 | a resolved link names a keg path that no link leads through |
| SymbolicLinks.CheckAncestors | internal/bottle/verify.go:925-936 | decides whether entries only lie below directories |
| SymbolicLinks.ListingUnique | internal/bottle/verify.go:925-929 | an archive has one sorted listing, because different paths have different texts |
| HardLinks.ResolveHop | internal/bottle/verify.go:1035-1043 | a hop is accepted over the recorded results exactly when it is over the scanned entries |
| HardLinks.CircleNeverStops | internal/bottle/verify.go:1022-1024 | no memory of real chains lets a circle of hard links stop |
| HardLinks.GoodHardlinkPasses | internal/bottle/verify.go:1012-1080 | a hard link accepted over the scanned entries alone passes whatever was handled before |
| ArchiveLinks.Archive.ResolveHardlink | internal/bottle/verify.go:1012-1053 | ends; succeeds exactly when the depth left leads to a file or a remembered path, and then remembers exactly the chain from there; a failure leaves the memory alone |
| ArchiveLinks.Archive.ResolveHardlinks | internal/bottle/verify.go:1053-1078 | in any order, accepts exactly when every hard link passes in its place, and then every entry is done |
| HardLinks.ChainOnce | internal/bottle/verify.go:1012-1053 | a chain of hard links has one length and one end |
| HardLinks.CircleHasNoEnd | internal/bottle/verify.go:1022-1024 | hard links in a circle name no file |
| HardLinks.ChainStaysInKeg | internal/bottle/verify.go:1012-1053 | a hard link chain ends at a regular entry in the keg that no link leads through |
| ArchiveLinks.Archive.Validate | internal/bottle/verify.go:924-1080 | accepts exactly the archives laid out in directories whose links all pass in the order of their paths, and leaves every entry with its resolved result, hard links with the content of their file |
| ArchiveLinks.GoodPassesAll | internal/bottle/verify.go:924-1080 | if every link is accepted over the scanned entries alone, every order accepts |
| LinkLimits.EndRejected | internal/bottle/verify.go:973-975 | in any directory of the keg, an archive with the link `d/../d` is refused at every limit, in every order, though the link has an end |
| LinkLimits.OrderMatters | internal/bottle/verify.go:924-1010 | in any directory whose links may leave the keg and at every limit that admits entries there, a link to a chain of one link more than the limit is refused under a name before the chain and accepted under a name after it |
| LinkLimits.OrderMattersInLibexec | internal/bottle/verify.go:811-826 | for a directory below libexec and any authorized Formula there are such names |
| Scanners.PlaceholderDetector.Write | internal/bottle/verify.go:54-73 | after any writes, found holds exactly when the written bytes contain a pattern |
| Scanners.Detect | internal/bottle/verify.go:54-73 | every cut of a stream finds what a search of the whole stream finds |
| Scanners.PlaceholdersFit | internal/bottle/verify.go:29-36 | the placeholders are non-empty and the longest has 23 bytes |
| Scanners.CountingTailReader.Read | internal/bottle/verify.go:106-118 | the ring holds the last bytes of the stream |
| Scanners.CountingTailReader.Last | internal/bottle/verify.go:120-133 | gives exactly the last n bytes, exactly when there are that many |
| Scanners.CountingTailReader.TailAllZero | internal/bottle/verify.go:135-145 | holds exactly when a full tail was read and is all zero |
| Scheduler.RunKeeps | internal/catalogservice/service.go:565-735 | in every interleaving slots equal the active operations, the queue lists the queued keys once, both are disjoint and bounded, a waiting queue means full slots, queued operations are stored pending without error, and no channel operation blocks |
| Scheduler.FinishedKeeps | internal/catalogservice/service.go:608-628 | a finished generation hands its slot to the head of the queue, which is never skipped |
| Scheduler.EvictKeeps | internal/catalogservice/service.go:704-735 | eviction only removes records, and never that of an active or queued operation |
| ServiceRecords.EvictsOldest | internal/catalogservice/service.go:704-735 | eviction removes the first evictable records of the listing, one for each over the limit and no more, and stops short only when none is left or a removal fails |
| Scheduler.ClosedRun | internal/catalogservice/service.go:221-237 | after close no generation starts, in any run |
| Scheduler.RunGrows | internal/catalogservice/service.go:356-378 | the store never grows past its limit or its initial size |
| Scheduler.ResumeTakesAll | internal/catalogservice/service.go:988-1024 | a restart takes on every pending operation and establishes the invariant |
| Scheduler.StepAttends | internal/catalogservice/service.go:349-735 | a step leaves every pending operation running or waiting exactly when it does not abandon one |
| Scheduler.RunAttends | internal/catalogservice/service.go:349-735 | a run does so throughout exactly when none of its steps abandons one |
| Scheduler.ResumeAttends | internal/catalogservice/service.go:988-1024 | a restart that lists every pending operation leaves all running or waiting |
| Scheduler.PendingLeftBehind | internal/catalogservice/service.go:691-702 | a POST between finish and release leaves a pending operation that nothing runs |
| ServiceRuns.LeftBehindFromEmpty | internal/catalogservice/service.go:349-735 | a run from an empty store in which an operation fails, is posted again before its release, and is left behind |
| ServiceRuns.ServedInOrder | internal/catalogservice/service.go:565-628 | in every run the launched operations followed by the waiting ones are those at the start followed by those admitted since, in the order of admission |
| ServiceRuns.KeepsItsPlace | internal/catalogservice/service.go:565-628 | an operation that waits keeps its place in that line whatever happens later |
| ServiceRecords.StepRecords | internal/catalogservice/service.go:349-735 | a step changes no record but the one it writes, and removes one only to make room, never one that runs or is to be run |
| ServiceRecords.RecordIsLastWritten | internal/catalogservice/service.go:349-735 | in any run a record has the status of the last step that wrote it |
| ServiceRecords.CompletedByGeneration | internal/catalogservice/service.go:691-702 | from an empty store, a record is completed exactly when its last writer is a generation that completed with a write that took effect |
| ServiceRecords.CompletedIsServed | internal/catalogservice/service.go:398-491 | a request for a completed, up-to-date operation changes nothing |
| ServiceRecords.FailedIsReported | internal/catalogservice/service.go:349-491 | a request during a terminal error and a GET of a failed operation change nothing; a POST of a failed one takes it on again |
| ServiceRecords.StepTerminal | internal/catalogservice/service.go:565-735 | a terminal error is set exactly by a save that does not succeed or a request that cannot be cloned, and goes with a later save or the record |
| Scheduler.GetTakesOn | internal/catalogservice/service.go:425-491 | a later GET takes such an operation on |
| CatalogService.Service.StartLocked | internal/catalogservice/service.go:565-590 | makes the start step |
| CatalogService.Service.GenerationDone | internal/catalogservice/service.go:608-628 | the loop over the queue makes the done step and keeps the invariant |
| CatalogService.Service.FinishOperation | internal/catalogservice/service.go:691-702 | makes the finish step for every outcome of the save |
| CatalogService.Service.EvictOperations | internal/catalogservice/service.go:704-735 | the loop evicts as the state machine does, for every outcome of the removals |
| CatalogService.Service.HandlePost | internal/catalogservice/service.go:349-423 | the locked part of POST makes the post step and keeps the invariant |
| CatalogService.Service.HandleGet | internal/catalogservice/service.go:436-491 | the locked part of GET makes the get step and keeps the invariant |
| CatalogService.Service.ResumePending | internal/catalogservice/service.go:988-1024 | refuses too many pending operations, otherwise starts each |
| Retention.UnexpiredStays | internal/catalogservice/service.go:737-765 | in every run each document of an unexpired signed set is stored, whatever a collection takes to be referenced |
| Retention.UnexpiredFromStart | internal/catalogservice/service.go:737-765 | so it is in every run that starts on a store whose files are not older than their documents |
| Retention.RunKeeps | internal/catalogservice/service.go:789-879 | publications, collections and time keep the invariant, also when a document already existed or a write fails late |
| Retention.CatalogFiles.RemoveCatalogsExcept | internal/catalogservice/store.go:496-520 | removes exactly the unreferenced documents older than the lifetime, or stops at a failed removal |
| Retention.CatalogFiles.PutCatalog | internal/catalogservice/store.go:411-460 | keeps an existing document with its time and otherwise adds it |
| Retention.CollectionKeeps | internal/catalogservice/store.go:496-520 | what one collection removes breaks no promise |
| Sequences.NextSequence | internal/catalogservice/store.go:291-346 | answers and stores what the specification says, for every outcome of the write |
| Sequences.NumbersIdentifySources | internal/catalogservice/store.go:291-346 | in any history a tap's numbers never go down, and no number is given to two sources |
| Sequences.SourceKeepsNumber | internal/catalogservice/store.go:326-328 | in any history a source keeps its number until the tap is asked for another source |
| Sequences.RefusedOnlyWhenSpent | internal/catalogservice/store.go:333-335 | in any history a call whose checks and write succeed is refused only once the calls before it and the first number add up to the last uint64 |
| KeyLocks.RunKeeps | internal/cataloggenerator/cache.go:167-187 | for any number of threads, registered threads share one lock, counts are right, and a held lock has its one holder |
| KeyLocks.AtMostOneHolder | internal/cataloggenerator/cache.go:167-187 | at most one thread holds a key |
| KeyLocks.MapHoldsRegistered | internal/cataloggenerator/cache.go:167-187 | the map holds a key exactly while a thread is registered, with the number of those threads |
| KeyLocks.DeleteSpares | internal/cataloggenerator/cache.go:178-186 | deleting a key never removes a lock in use |
| KeyLocks.SomeoneMoves | internal/cataloggenerator/cache.go:167-187 | while a thread is on its way, some thread registered for its key can move |
| Conversion.ConvertFormula | internal/catalogextractor/raw.go:190-281 | selecting a platform from the result gives back that platform's normalized dependencies and keg-only flag, an absent platform is unavailable, refusals are true, and the result passes the catalog's check exactly outside the two refused families |
| Conversion.NormalizeDependencies | internal/catalogextractor/raw.go:340-373 | gives every spelling its identity, sorted and without repeats, or fails for a real reason |
| Conversion.NormalizedOnce | internal/catalogextractor/raw.go:340-373 | normalization has one result |
| Conversion.NormalizedOk | internal/catalog/validate.go:380-410 | normalized dependencies pass the check exactly when none is spelled by another core name |
| Conversion.KegOnlyOnBothRefused | internal/catalogextractor/raw.go:272-278 | a Formula that converts and is then refused |
| SignedSpellings.IdentifyInTerms | internal/catalogextractor/raw.go:340-373 | what is signed for a spelling: as written if qualified, else the core Formula, else the local name if core does not know it and the tap has it |
| SignedSpellings.SignedIsFound | internal/catalogresolver/resolver.go:233-255 | the resolver finds the signed identity under the spelling exactly when that identity is canonical |
| SignedSpellings.BareIsFound | internal/catalogextractor/raw.go:340-373 | what is signed for a bare spelling is always canonical and found again |
| SignedSpellings.AliasIsNotFound | internal/catalogresolver/resolver.go:233-255 | a core alias spelled with its tap is signed as written and never found as such |
| SignedSpellings.NormalizedIsFound | internal/catalogresolver/resolver.go:118-166 | a normalized list resolves to its signed identities exactly when they are canonical |
| SignedSpellings.NoMismatch | internal/catalogresolver/resolver.go:137-158 | resolving a converted Formula disagrees with what was signed only where the signed identity is not canonical |
| SignedSpellings.ChecksAgree | internal/catalog/validate.go:380-410 | the check of a signed dependency and of the requirement it becomes agree |
| BottleBlock.NormalizedBottleFormula | internal/cataloggenerator/formula_source.go:15-60 | removes the one block and one blank line after it, and reports repeated and unterminated blocks |
| BottleBlock.StartMeaning | internal/cataloggenerator/formula_source.go:9 | a start line is exactly tabs and spaces, `bottle`, at least one tab or space, `do`, and an optional comment or carriage return |
| BottleBlock.EndMeaning | internal/cataloggenerator/formula_source.go:34-43 | an end line is exactly the indentation, `end` and at most a carriage return |
| BottleBlock.NoBlockRemains | internal/cataloggenerator/formula_source.go:15-60 | no start line is left, also after splitting the result again |
| BottleBlock.BlockFreeUnchanged | internal/cataloggenerator/formula_source.go:31-33 | source without a block comes back unchanged |
| BottleBlock.RemovalTwice | internal/cataloggenerator/formula_source.go:15-60 | removing twice is removing once |
| BottleBlock.RemovalUndoesInsertion | internal/cataloggenerator/formula_source.go:15-60 | removal exactly undoes inserting a well-formed block and one blank line at any line boundary of block-free source |

## Left out

- Network clients, build drivers, provenance and the front end: calls into code the model cannot see.
- Hashing, signatures, archive and JSON decoding: represented by abstract values; text is modelled as characters, not UTF-8 bytes.
- Field formats (URLs, hostnames, digests, file names, control characters) in the validators: one-branch checks.
- Tap, name and digest syntax: identities are a tap and a non-empty name without a slash.
- Receipt checks other than dependencies: a parameter of the repair, with the JSON text of a receipt.
- Scan-time checks of single archive headers, `validateSymlink` and the rule for the shared certificate bundle: the resolution takes the scanned entries and the authorization as given, and only the rule for links below libexec is written out.
- Merging of bottle, prebuilt-archive and versioned-name declarations: the outcome is a parameter of the conversion.
- Contents of cache files and of the tap index: only the locking of the artifact cache is modelled.
- Response bodies and status codes of the service, and why a cached result is up to date: a parameter of the handler steps.
- The process start of the service, including reading the pending operations from disk: the resumption takes the listed operations.
- TapCatalogs.New: of the checks of a tap document it keeps those on identities and mappings; the checks of racks, URLs, digests and other single fields only add one-branch tests.
- ClosureCheck.ValidateNode: does not model the control-character, whitespace and name-syntax checks of single fields, which are one-branch tests.
- Retention.UnexpiredStays: does not cover a clock that goes back or a change of the lifetime, under which the promise does not hold.
- Scanners.CountingTailReader.Read: the byte count is unbounded; a stream longer than an int64 can count is not modelled.
