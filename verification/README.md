# Verified model of the OpenCRE core

OpenCRE keeps Common Requirement Enumerations (CREs) and the standards, tools and code that link to
them. This project models the parts of the program that carry real algorithms and protocols, and proves
what they promise.

| file | what it models |
|---|---|
| `CresCsvExport.dfy` | the exporter: ancestor closure, breadth-first distances, all shortest chains from a root to a CRE |
| `Graphs.dfy`, `InmemoryGraph.dfy` | the in-memory graph: speculative edges, refusal of cycles, loading |
| `Documents.dfy`, `Hydration.dfy` | the tables, the documents read from them one by one or in a batch, and the graph loaded from them |
| `Registration.dfy` | registration as a function of what is stored: its outcome, and the reasons for every refusal |
| `NodeCollection.dfy` | the registering methods, which have that outcome and keep the link table and the graph in step |
| `ImportDiff.dfy`, `ImportApply.dfy`, `ImportRuns.dfy` | the difference of two snapshots, its application to the node table, staging, review and transactions |
| `GapAnalysis.dfy`, `GapLock.dfy` | path scores, the merge into strong and weak paths, the lock protocol of several workers |
| `OpenapiLoader.dfy` | the resolver of local `$ref` references |
| `MarkdownText.dfy`, `MarkdownSplit.dfy`, `MarkdownChunker.dfy`, `MarkdownSections.dfy` | the markdown chunker: headings, sections, cutting by size, positions |
| `Spreadsheet.dfy` | the mapping template: a depth-indented listing of the CREs below some roots |
| `Wrappers.dfy`, `Sequences.dfy` | optional values, results, lists without repetitions |

SQL tables are sequences and maps, queries are order-preserving filters, and exceptions are `Result`
values. What the program updates in place is a class or a method with loops; each method is proved
against a specification, and the lemmas beside it say what the specification means.

Results that differ from what a reader of the program may expect, each with the exact condition:

* Links between a CRE and a resource are never tried for cycles. A resource named as the container of a
  CRE puts a cycle into the graph exactly when the CRE already leads to it
  (`InmemoryGraph.ContainerResourceClosesCycle`). Registering one document can do it, whether it names the
  resource as its container (`NodeCollection.ContainerResourceRun`) or links to a resource that calls
  itself PartOf a CRE (`NodeCollection.LinkedResourceRun`). As long as no link at a resource says PartOf,
  the graph stays acyclic, whatever else is loaded and registered (`NodeCollection.LoadAndRegister`).
* Loading the graph from a table that holds no cycle can refuse a containment, because a Related row is
  read in the direction of the CRE that is visited first (`Hydration.RelatedRowMayCloseCycle`).
  `Hydration.LoadFromTables` says exactly when, for one order of the documents, and
  `Hydration.AnyOrderLoadsIff` when no order refuses anything.
* Effects that raise after the commit leave a run marked as failed although its operations are in the
  table. Without foreign edits such a run can be committed again exactly if it has operations and none
  of them removes or changes a row, and no key then shows anything new (`ImportRuns.SecondCommitIff`,
  `ImportRuns.LaterCommitsShowNothingNew`).
* While a pair of standards is cached and nobody is computing it, it can be computed again exactly if some
  worker stands between its look into the cache and the lock (`GapLock.ComputedAgainIff`); every worker
  may do so once (`GapLock.CachedPairMayBeComputedAgain`).
* Resolution fails exactly if some unfolding of the node (into a field's value, or into the target of a
  reference with its siblings laid over it) leads to an object whose own reference is not local, has no
  target, or was named before on the way (`OpenapiLoader.FailsIff`, `OpenapiLoader.FailsIffRepeats`). This
  is not the same as a cycle of references: siblings can make the resolver report a cycle that is none if
  they carry a reference (`OpenapiLoader.SiblingFakesCycle`), and can hide a real one if they replace a
  field that carries one or are dropped with one of their own (`OpenapiLoader.SiblingHidesCycle`,
  `OpenapiLoader.DroppedSiblingHidesCycle`). If they do neither, which is enough but not necessary,
  resolution fails exactly on cycles (`OpenapiLoader.SucceedsIffAcyclic`).
* Two blank lines in a row can shift the recorded positions of chunks (`MarkdownSplit.SeparatorCanBeLost`).
  Positions are exact precisely when no paragraph without text becomes a whole buffer.

## Model

| member | source | states |
|---|---|---|
| Sequences.DedupeKeepOrder | application/utils/cres_csv_export.py:37-45 | later repetitions go, first occurrences keep their order, the elements are the same |
| CresCsvExport.LinkedCreIds | application/utils/cres_csv_export.py:134-155 | the linked CREs of one link type with a well-formed id, each once |
| CresCsvExport.ParentCreIds | application/utils/cres_csv_export.py:134-143 | exactly the CREs that contain this one, each once |
| CresCsvExport.ChildCreIds | application/utils/cres_csv_export.py:146-155 | exactly the CREs that this one contains, each once |
| CresCsvExport.ParentIff | application/utils/cres_csv_export.py:134-143 | in the strings themselves: the containers are the CREs with three digits, a dash and three digits that a link "Is Part Of" names |
| CresCsvExport.ChildIff | application/utils/cres_csv_export.py:146-155 | the contained CREs are those that a link "Contains" names |
| CresCsvExport.BuildAncestorClosure | application/utils/cres_csv_export.py:178-199 | the least parent-closed set around the seeds, each CRE fetched once; fails exactly when no such set exists among the known CREs; ends on cyclic data |
| CresCsvExport.BfsDistToTarget | application/utils/cres_csv_export.py:206-216 | exactly the ancestors of the target with the length of their shortest chain, queued once each, the nearer ones first |
| CresCsvExport.ExpandParents | application/utils/cres_csv_export.py:209-215 | one round of the queue only adds parents one level further away; a known distance never changes |
| CresCsvExport.PathSearch.DownTowardTarget | application/utils/cres_csv_export.py:234-242 | the children that are exactly one level nearer to the target |
| CresCsvExport.PathSearch.Dfs | application/utils/cres_csv_export.py:244-256 | adds exactly the descents from the node to the target and restores the prefix; ends whatever the hierarchy looks like |
| CresCsvExport.DescentIsChain | application/utils/cres_csv_export.py:234-256 | a descent along the distances is a chain of containers of exactly the shortest length |
| CresCsvExport.GeodesicIsDescent | application/utils/cres_csv_export.py:234-256 | every chain of shortest length is a descent, so the search misses none |
| CresCsvExport.ShortestLength | application/utils/cres_csv_export.py:226-233 | a chain from a root is shortest exactly when it is one longer than the least root distance |
| CresCsvExport.DescentsAreShortest | application/utils/cres_csv_export.py:219-263 | the shortest root chains are exactly the descents from the nearest roots |
| CresCsvExport.ShortestPathsToTarget | application/utils/cres_csv_export.py:219-263 | no chain twice; the target alone when no root reaches it; otherwise, if children inverts parents, exactly the chains from a root that no other root chain undercuts |
| CresCsvExport.BuildMaps | application/utils/cres_csv_export.py:444-451 | the parent and child lists of the closure, and the CREs that nothing contains as its roots |
| CresCsvExport.ClosureMapsAreInverse | application/utils/cres_csv_export.py:444-450 | documents that agree about both ends of a containment give maps that are inverse on the closure |
| CresCsvExport.ExportPaths | application/utils/cres_csv_export.py:440-465 | end to end: for every target exactly the shortest chains read off the fetched documents, or the target alone |
| Graphs.NewEdgeClosesCycle | application/database/inmemory_graph.py:55-66 | an edge added to an acyclic graph closes a cycle exactly when its head already leads to its tail |
| Graphs.FindCycle | application/database/inmemory_graph.py:68-73 | stands for the graph library's search: a real cycle, or none exactly when the graph is acyclic |
| InmemoryGraph.AddedEdgeAcyclic | application/database/inmemory_graph.py:172-234 | adding the edge of a link keeps an acyclic graph acyclic exactly when the link closes no cycle |
| InmemoryGraph.ContainerResourceClosesCycle | application/database/inmemory_graph.py:158-170 | a resource given to a CRE as its container is accepted without a check, and makes the graph cyclic exactly when the CRE leads to it |
| InmemoryGraph.LinkToSinkIsSafe | application/database/inmemory_graph.py:158-170 | every other link from a CRE to a resource is harmless although it is not checked |
| InmemoryGraph.CreGraph.AddDocument | application/database/inmemory_graph.py:140-152 | one vertex is added if it is new, and no edge |
| InmemoryGraph.CreGraph.IntroducesCycle | application/database/inmemory_graph.py:43-66 | says whether the link would close a cycle, without touching the graph; an existing cycle is an error |
| InmemoryGraph.CreGraph.AddLink | application/database/inmemory_graph.py:154-170 | between CREs of an acyclic graph exactly the links that close a cycle are refused; a refusal changes nothing, an accepted link keeps the graph acyclic |
| InmemoryGraph.FollowLink | application/database/inmemory_graph.py:250-254 | as long as nothing was refused the loaded graph is the unchecked one; after a refusal the unchecked one is cyclic |
| InmemoryGraph.SinksDoNotMatter | application/database/inmemory_graph.py:158-170 | resources that no edge leaves lie on no cycle |
| InmemoryGraph.CreGraph.LoadDocument | application/database/inmemory_graph.py:236-254 | one document: only refusals because of a cycle are passed over |
| InmemoryGraph.CreGraph.LoadCreGraph | application/database/inmemory_graph.py:236-254 | nothing is swallowed exactly when all edges taken together are acyclic, and then the graph has exactly those edges; the graph stays acyclic in any case |
| Hydration.BucketNodeLinks | application/database/db.py:1951-1956 | every requested CRE gets its own link rows in table order |
| Hydration.BucketInternalLinks | application/database/db.py:1965-1982 | every requested CRE gets the rows it ends, under both of its roles |
| Hydration.DedupedFiledRows | application/database/db.py:2000-2006 | leaving out repetitions keeps each row once, also one that joins a CRE to itself |
| Hydration.AssembleNodeLinks | application/database/db.py:2054-2070 | the resource links of one CRE, filtered by resource name |
| Hydration.AssembleInternalLinks | application/database/db.py:2015-2052 | a containment reads Contains from above and PartOf from below |
| Hydration.HydrateCresBatch | application/database/db.py:1943-2013 | each document of a batch is the one the CRE has when it is read alone |
| Hydration.ShownLinks | application/database/db.py:2015-2052 | a link to a CRE appears exactly when a row says so |
| Hydration.ShownResources | application/database/db.py:2054-2070 | a resource is linked, under the type of its row, exactly when a row says so and the resource passes the filter; the filter does not touch links to CREs |
| Hydration.ViewsAreDual | application/database/db.py:2015-2052 | A lists B as contained iff B lists A as its container; Related is symmetric |
| Hydration.HydratedApiIsDual | application/utils/cres_csv_export.py:134-155 | documents made from the tables meet the exporter's condition that makes its maps inverse |
| Hydration.ServedLinks | application/database/db.py:2015-2052 | the served document of A has a link "Contains" to B, and that of B a link "Is Part Of" to A, exactly if a row says that A contains B |
| Hydration.ContainersAreRows | application/utils/cres_csv_export.py:134-143 | what the exporter takes for a container of B is a CRE that a row puts above B |
| Hydration.ExportTable | application/utils/cres_csv_export.py:440-465 | from the table to the export: it fails exactly on ids that are not stored; otherwise the paths of a CRE are exactly the ids along the shortest chains of Contains rows, read from the highest CRE down, or its own id if there is no chain |
| Hydration.EdgesOfDocuments | application/database/inmemory_graph.py:204-216 | after the first documents the edges between CREs are those of the rows they show, a Related row in the direction of its first reader |
| Hydration.LoadFromTables | application/database/db.py:1497-1511 | for any order of the documents: the graph is acyclic, even after an error, unless a resource is stored as a container; nothing is refused iff the rows so directed are acyclic, and then the graph has exactly one typed edge for each row, although each row is presented from both ends |
| Hydration.ContainmentsLoadExactly | application/database/inmemory_graph.py:192-203 | without Related rows the directed rows are the stored ones, whatever the order |
| Hydration.RelatedRowMayCloseCycle | application/database/inmemory_graph.py:204-216 | an acyclic table and an order of its documents for which the loader meets a cycle |
| Hydration.AnyOrderLoadsIff | application/database/inmemory_graph.py:204-216 | every order of the documents loads every row exactly when no cycle runs through a row that is not Related, Related rows being walked either way |
| Hydration.OrderThatRefuses | application/database/inmemory_graph.py:204-216 | from such a cycle, an order of the documents that the loader cannot load without a refusal |
| Registration.FindCre | application/database/db.py:2264-2272 | the first row with the id and, letter case aside, the name |
| NodeCollection.IdsStayDistinct | application/database/db.py:2264-2300 | external ids stay distinct exactly when the id is new or its row has the same name, letter case aside |
| NodeCollection.RowsAreAcyclic | application/database/db.py:2494-2540 | in step, the link rows read from group to CRE hold no cycle |
| NodeCollection.NoRowNoEdge | application/database/db.py:2494-2515 | in step, CREs without a row have no edge, so an unknown pair is new to the graph too |
| NodeCollection.NewRowKeepsInStep | application/database/db.py:2531-2537 | a new row and its edge, if it closes no cycle, keep tables and graph in step |
| NodeCollection.Collection.AddCre | application/database/db.py:2264-2300 | finds or inserts the CRE; tables and graph stay in step while ids are distinct |
| NodeCollection.Collection.AddInternalLink | application/database/db.py:2421-2540 | row and edge are written together or not at all; a known pair is left alone; in step, a new pair is refused as cyclic exactly when the lower CRE leads to the higher one; the graph stays acyclic in step or not |
| NodeCollection.Collection.AddLink | application/database/db.py:2542-2585 | one row of the pair gets the new type and the graph stays, or a row and the edge are added; in step stays in step, and acyclic stays acyclic unless the resource is a container |
| NodeCollection.Collection.RegisterCreLink | application/cmd/cre_main.py:178-202 | PartOf is flipped into Contains; the link is settled: its pair has a row or leads the other way; the outcome, errors included, is the specified one |
| NodeCollection.LinkIsSettled | application/cmd/cre_main.py:182-200 | every outcome of storing a link leaves it settled and writes only what the document states |
| Registration.FirstNamed | application/database/db.py:1908-1937 | the first CRE with the name, letter case aside |
| Registration.TreeRegistersIff | application/cmd/cre_main.py:169-205 | a tree of CREs is registered exactly if every id starts with three digits, a dash and three digits, every link says Contains, PartOf or Related, and two linked CREs have different stored names or are joined by a row already |
| Registration.RegistersIff | application/cmd/cre_main.py:169-209 | with resources of known link types that have no CRE's name: exactly if the CREs are as in `TreeRegistersIff` and every CRE that a resource names is stored |
| Registration.RefusalIsExplained | application/cmd/cre_main.py:169-209 | every refusal has one of the reasons, and the error says which |
| Registration.SuccessTells | application/cmd/cre_main.py:169-205 | after a success no CRE of the tree and no link between two of them gives a reason for a refusal |
| Registration.NodeExplained | application/cmd/cre_main.py:89-166 | a resource is refused only if one below it names an unknown CRE, has the name of a CRE, or has a link of unknown type, and the error says which |
| Registration.NodeSuccessTells | application/cmd/cre_main.py:152-164 | after a success every CRE that a resource of the tree names is stored under a name that is not empty |
| Registration.CresAfterwards | application/cmd/cre_main.py:169-209 | the CREs stored by a registration are those of the tree, in the order of the visit |
| Registration.CresLinked | application/database/db.py:1606-1609 | exactly the stored CREs that some row links to the resource |
| NodeCollection.Collection.LinkAll | application/cmd/cre_main.py:126-134 | every CRE is linked, under the type of the link, to the resource and to all resources that wait for one; the outcome is the specified one |
| NodeCollection.Collection.RegisterNamedCre | application/cmd/cre_main.py:152-164 | the first CRE with the name is linked to the resource and to all resources that wait for one; without such a CRE it is an error |
| NodeCollection.Collection.RegisterLinkedNode | application/cmd/cre_main.py:117-150 | of two linked resources the document gets the CREs of the other one, or else that one gets the CREs of the document; it waits exactly if neither has one |
| NodeCollection.Collection.RegisterNode | application/cmd/cre_main.py:89-166 | on success every resource in the tree is stored and linked to each CRE it names, and a resource that names a CRE or had one shares a CRE with every resource it links to; in any case only resources and their links are written, for resources of the tree only, and the graph stays acyclic and in step if none of their links says PartOf; in every case the outcome, errors included, is the specified one |
| NodeCollection.Collection.RegisterResourceLink | application/cmd/cre_main.py:203-208 | the resource is registered and then stored as linked to the CRE under the type of the link; the outcome is the specified one |
| NodeCollection.Collection.RegisterCre | application/cmd/cre_main.py:169-209 | rows are only appended, each new one is stated by the document and new resource links belong to its resources; on success every link between CREs in the tree is settled and every resource stored and linked; the flag says whether the id was known; if PartOf joins CREs only, the graph stays acyclic whatever the tables hold, and in step while external ids are distinct, even after an error; the outcome, errors included, is the one that `TreeRegistersIff` and `RegistersIff` speak of |
| NodeCollection.Collection.RegisterAll | application/utils/import_pipeline.py:208-212 | over a whole import in which PartOf joins CREs only, the graph stays acyclic, and the rows stay acyclic and equal to its edges between CREs if they were at the start and external ids stay distinct; success, the first error and the stored CREs, pairs and resources are the specified ones |
| NodeCollection.LoadedInStepIff | application/database/inmemory_graph.py:204-216 | a graph loaded without refusal is in step with its table exactly if no Related row was read in reverse |
| NodeCollection.WithGraph | application/database/db.py:1322-1336 | the graph loaded into the collection is acyclic, even after an error, unless a resource is stored as a container; it is in step exactly if, refusing nothing, it read no Related row in reverse |
| NodeCollection.LoadAndRegister | application/cmd/cre_main.py:169-177 | loading and importing together: acyclic from every table without a resource as a container, if PartOf joins CREs only in the documents; in step from every table that is loaded exactly |
| NodeCollection.ContainerResourceRun | application/cmd/cre_main.py:177-208 | the calls that registering one document makes leave a cyclic graph |
| NodeCollection.LinkedResourceRun | application/cmd/cre_main.py:152-208 | so do those for a document that links to a resource which calls itself PartOf a stored CRE |
| ImportDiff.SnapshotMap | application/utils/import_diff.py:61-65 | one entry for each key, taken from the list |
| ImportDiff.SnapshotHasEveryKey | application/utils/import_diff.py:77-82 | every key is present, and an entry without a rival is the one kept |
| ImportDiff.SnapshotKeepsLast | application/utils/import_diff.py:77-82 | of several entries with one key the last one is kept |
| ImportDiff.DiffStandards | application/utils/import_diff.py:68-95 | exactly the additions, removals and modifications that the two snapshots call for, one for each key |
| ImportDiff.DiffToChangeSet | application/utils/import_diff.py:132-157 | the operations in the order of additions, removals, modifications |
| ImportDiff.DetectConflicts | application/utils/import_diff.py:241-255 | exactly the removals and modifications of hand-edited keys |
| ImportDiff.HasConflicts | application/utils/import_diff.py:258-262 | true exactly when some operation conflicts |
| ImportApply.FindRow | application/utils/import_apply.py:50-56 | the first row that matches the key |
| ImportApply.LookupFinds | application/utils/import_apply.py:50-56 | the row found for a key has the key's name, section and section id, and none is found exactly if no row has |
| ImportApply.OpEffect | application/utils/import_apply.py:98-156 | one turn of the loop does what the row of its key calls for and touches no other key |
| ImportApply.RefusedIff | application/utils/import_apply.py:98-156 | an operation is refused exactly if no row with its key and the five texts it expects is stored, except for additions where no row has the key; each kind has its own error |
| ImportApply.SkippedIff | application/utils/import_apply.py:98-156 | what is skipped: additions of a row that is there, and modifications that change none of the five texts; all others are applied |
| ImportApply.RunHasClosedForm | application/utils/import_apply.py:92-156 | with one operation for each key, success, first error, counts and every final row can be read off the initial table |
| ImportApply.DryRunForetells | application/utils/import_apply.py:112-167 | a dry run succeeds iff the real one does, with the same report or error, and leaves the table alone |
| ImportApply.OrderDoesNotMatter | application/utils/import_apply.py:98-156 | every permutation of the operations succeeds alike and gives the same final table |
| ImportApply.PatchIsCorrect | application/utils/import_apply.py:97-156 | the change set between two snapshots never conflicts on a table that shows the first one; afterwards each entry of the second one has a row with its name, section, subsection, section id and description, and no other key has a row |
| ImportApply.UnkeyedRowsStay | application/utils/import_apply.py:50-56 | rows that lack a key field are never touched |
| ImportApply.SecondRun | application/utils/import_apply.py:98-156 | run again on what it left behind, a change set succeeds exactly when it removes and changes no row, and then no key shows anything new |
| ImportRuns.FaultOrSameRun | application/utils/import_apply.py:97-156 | a run with a database fault either fails with it or is the run without it |
| ImportRuns.StagedRun.Accept | application/web/web_main.py:1083-1094 | which runs can be accepted |
| ImportRuns.StagedRun.Discard | application/web/web_main.py:1100-1107 | which runs can be discarded |
| ImportRuns.StagedRun.ApplyOps | application/utils/import_apply.py:97-156 | the loop over the session with a database that may fail |
| ImportRuns.StagedRun.Apply | application/utils/import_apply.py:59-194 | the transaction: session and table agree again afterwards, in every branch |
| ImportRuns.DecisionsTakeEffect | application/web/web_main.py:1083-1107 | an open run without conflicts becomes accepted, any run but an applied one discarded |
| ImportRuns.AttemptReports | application/utils/import_apply.py:70-194 | which attempts are turned away, with which error; otherwise every operation is named and counted once, as applied or skipped |
| ImportRuns.AllOrNothing | application/utils/import_apply.py:158-194 | a step either commits all operations or leaves the table alone; a failed attempt is marked as such; a dry run changes nothing |
| ImportRuns.AtMostOnce | application/utils/import_apply.py:70-90 | over any steps, foreign edits and raising effects included, the commits are those that raising effects reopened, and one more exactly if the run is applied; never with conflicts |
| ImportRuns.LaterCommitsShowNothingNew | application/utils/import_apply.py:158-194 | without foreign edits the table is as before or shows what one run leaves behind, however often the run is committed |
| ImportRuns.SecondCommitIff | application/utils/import_apply.py:169-194 | a run can be committed twice exactly if it is open, has operations, and none of them removes or changes a row |
| ImportRuns.DiscardIsFinal | application/utils/import_apply.py:70-71 | a discarded run never touches the table again |
| ImportRuns.RaisingEffectsAllowTwoCommits | application/utils/import_apply.py:169-194 | for every such run, steps with raising effects that commit it twice |
| ImportRuns.Stage | application/utils/import_pipeline.py:78-135 | the staged operations are those of all standards, one for each key if entries are filed under their own standard; conflicts are those with hand-edited keys |
| ImportRuns.UneditedRow | application/utils/import_diff.py:224-238 | a live row that was not reported as edited still reads as the last import |
| ImportRuns.EditedIff | application/utils/import_diff.py:224-238 | a key of the last import is reported as edited exactly if its row reads differently |
| ImportRuns.ConflictIff | application/utils/import_diff.py:241-255 | a staged operation conflicts exactly if it removes or changes a row that no longer reads as in the last import |
| ImportRuns.ConflictCheckIsSound | application/utils/import_pipeline.py:105-135 | without conflicts and with the table unchanged, application can fail only on missing rows and on additions over a different row, and succeeds otherwise |
| GapAnalysis.GetPathScore | application/utils/gap_analysis.py:92-105 | the total is the sum of the step scores, each taken from the end where the walk enters the step; unknown labels raise |
| GapAnalysis.ScoreOfConcat | application/utils/gap_analysis.py:92-105 | scores add up along a path |
| GapAnalysis.ScoreBothWays | application/utils/gap_analysis.py:92-116 | a path and its reverse together cost three for each plain containment, four or two for one spelled UP or DOWN, and four for each relation |
| GapAnalysis.ScoreByKind | application/utils/gap_analysis.py:108-116 | a score counts relations and steps up twice and steps down once |
| GapAnalysis.PlainContainments | application/utils/gap_analysis.py:108-116 | n containments cost 2n if each is entered at its start, and n if each is entered at its end |
| GapAnalysis.StrongPaths | application/database/db.py:3394-3396 | which paths are strong: one relation, or one step up, or at most two steps down, and no other penalty |
| GapAnalysis.BestIsFirstOfCheapest | application/database/db.py:3401-3406 | the stored path is the first one of least score |
| GapAnalysis.BestScoreIgnoresOrder | application/database/db.py:3397-3413 | reachability and least score do not depend on the order of the paths |
| GapAnalysis.SeedGroups | application/database/db.py:3359-3382 | an entry for each named base document and each start of a path |
| GapAnalysis.FilePathIsRight | application/database/db.py:3392-3415 | the loop body keeps every end filed under its best path so far, moving an end from the weak to the strong map when needed |
| GapAnalysis.GapMerge | application/database/db.py:3359-3415 | raises exactly when some path cannot be filed or scored; otherwise every start has its ends filed by their best paths |
| GapAnalysis.MergeMeaning | application/database/db.py:3384-3415 | an end is strong iff its least score is at most two, weak iff it has paths and all cost more, never both; extra is the number of weak ends |
| GapAnalysis.MergeIgnoresOrder | application/database/db.py:3384-3415 | another order of the paths gives the same ends, scores and counts |
| GapLock.StepKeepsInv | application/utils/gap_analysis.py:352-394 | every step of every worker keeps mutual exclusion, the meaning of the lock and the counts of computations |
| GapLock.AfterComputation | application/utils/gap_analysis.py:362-389 | a transient failure is tried again as long as the worker has retries left, any other failure raises, a computation that does not fail returns |
| GapLock.WorkerGoesOn | application/utils/gap_analysis.py:352-394 | a worker without the lock returns a cached result, or computes if the lock is free, within three steps of its own |
| GapLock.ResultWasThere | application/utils/gap_analysis.py:326-379 | whoever returns has computed without failing, or the pair was cached at some time |
| GapLock.ReachableStatesAreSafe | application/utils/gap_analysis.py:326-394 | with any number of workers at most one computes, the lock is set iff one is in the critical section, each computes at most max_compute_retries + 1 times, and none raises without having failed |
| GapLock.NoLockLeftBehind | application/utils/gap_analysis.py:363-389 | when all workers have ended, by a result or an error, the lock is free |
| GapLock.HolderFreesLock | application/utils/gap_analysis.py:360-389 | the holder frees the lock by at most two steps of its own, whatever its computation does |
| GapLock.QuietStays | application/utils/gap_analysis.py:353-361 | from a cached pair with nobody between the look into the cache and the end of a computation, no worker ever computes again |
| GapLock.LateComputes | application/utils/gap_analysis.py:360-389 | a worker before the lock computes after at most two steps |
| GapLock.ComputedAgainIff | application/utils/gap_analysis.py:353-361 | with any number of workers, a cached pair that nobody is computing can be computed again exactly if some worker stands between the look into the cache and the lock |
| GapLock.CachedPairMayBeComputedAgain | application/utils/gap_analysis.py:353-361 | any number of workers may all compute one after the other although the pair is cached from the first time on |
| OpenapiLoader.FollowPath | application/mcp/openapi_loader.py:58-62 | the walk along the parts of a reference; fails at the first missing part |
| OpenapiLoader.LayOver | application/mcp/openapi_loader.py:64-70 | siblings replace fields of the target in place or are appended |
| OpenapiLoader.OverlayLookup | application/mcp/openapi_loader.py:64-70 | under each key lies the last sibling with that key or else the field of the target, and a reference always comes from the target |
| OpenapiLoader.PartsOfText | application/mcp/openapi_loader.py:58-59 | the parts of a reference, put together with slashes, are the reference, and none of them holds a slash |
| OpenapiLoader.SplitOfJoined | application/mcp/openapi_loader.py:58-59 | so they are determined: keys without slashes, put together, come apart again |
| OpenapiLoader.ReferenceResolves | application/mcp/openapi_loader.py:53-72 | a reference "#/k1/../kn" whose keys lead through objects resolves to what they lead to, with the siblings laid over it key by key, or to the target alone if it is no object |
| OpenapiLoader.ReferenceIsUnresolved | application/mcp/openapi_loader.py:53-62 | it is unresolved where the keys lead to something that is no object or lacks the next key |
| OpenapiLoader.ResolveRef | application/mcp/openapi_loader.py:37-72 | the resolver with its loops equals its recursive specification and ends on every document, cyclic ones included |
| OpenapiLoader.ResolvedHasNoRef | application/mcp/openapi_loader.py:37-72 | a result has no reference on any path through objects |
| OpenapiLoader.ResolvedStays | application/mcp/openapi_loader.py:47-52 | resolving a document without references gives it back |
| OpenapiLoader.StackDoesNotShowInResult | application/mcp/openapi_loader.py:46-71 | the reference stack decides only about failure, never about the result |
| OpenapiLoader.MergedKeepsRefs | application/mcp/openapi_loader.py:64-70 | the overlaid object keeps every reference of target and siblings if no sibling replaces a field that carries one |
| OpenapiLoader.FailsIff | application/mcp/openapi_loader.py:37-72 | for every document: resolution fails exactly if some unfolding leads to an object whose own reference is not local, has no target or was named before on the way, and it reports one of these errors |
| OpenapiLoader.FailsIffRepeats | application/mcp/openapi_loader.py:53-71 | with local references that have targets, whatever the siblings are, resolution fails exactly if some unfolding names a reference twice |
| OpenapiLoader.CircularIsReal | application/mcp/openapi_loader.py:56-71 | if no sibling carries a reference, a reported cycle is a real one that the document reaches |
| OpenapiLoader.SuccessBoundsChains | application/mcp/openapi_loader.py:56-71 | if siblings hide no reference, success bounds the length of every chain of references |
| OpenapiLoader.ReachedCycleFails | application/mcp/openapi_loader.py:56-71 | if siblings hide no reference, a real cycle that the document reaches is never resolved |
| OpenapiLoader.OnlyCyclesFail | application/mcp/openapi_loader.py:53-71 | if every reference is local and has a target, only cycles fail, whatever the siblings are |
| OpenapiLoader.SucceedsIffAcyclic | application/mcp/openapi_loader.py:37-72 | with good references and siblings that neither carry nor hide one, resolution succeeds exactly when no reached reference leads back to itself |
| OpenapiLoader.SiblingFakesCycle | application/mcp/openapi_loader.py:63-71 | a document, good but for a sibling with a reference, for which a cycle is reported though no reference leads anywhere |
| OpenapiLoader.SiblingHidesCycle | application/mcp/openapi_loader.py:63-71 | a document, good but for a sibling that replaces a field with a reference, whose real cycle resolves |
| OpenapiLoader.DroppedSiblingHidesCycle | application/mcp/openapi_loader.py:66-72 | a reference to something else than an object drops a sibling that refers into a cycle |
| MarkdownText.JoinOfSplitLines | scripts/build_labeled_dataset.py:195 | joining the lines gives the text back |
| MarkdownText.JoinOfSplitParagraphs | scripts/build_labeled_dataset.py:286 | joining the paragraphs gives the text back |
| MarkdownText.LinesAreSlice | scripts/build_labeled_dataset.py:205-266 | consecutive lines are the slice of the text between their starts, with one newline behind them |
| MarkdownSplit.HardSplit | scripts/build_labeled_dataset.py:302-310 | the pieces of a long paragraph fit and, put together, are the paragraph |
| MarkdownSplit.CutIntoEntries | scripts/build_labeled_dataset.py:287-316 | the entries fit, keep all other characters than newlines, and describe the text exactly iff no paragraph is lost; if all paragraphs fit, neighbours would not have fitted together |
| MarkdownSplit.PlaceEntries | scripts/build_labeled_dataset.py:318-340 | each piece lies at its recorded offsets in the described text, with its lines counted right |
| MarkdownSplit.SplitChunkBySize | scripts/build_labeled_dataset.py:276-340 | every piece fits; nothing but newlines is lost, repeated or reordered; offsets and lines are exact iff no paragraph is lost; cuts are made at blank lines and only where they must be if every paragraph fits; every piece carries the section's path and stays within its lines, the first piece starting where it starts |
| MarkdownSplit.NoEmptyParagraphNoLoss | scripts/build_labeled_dataset.py:311-315 | without empty paragraphs nothing is lost |
| MarkdownSplit.SeparatorCanBeLost | scripts/build_labeled_dataset.py:311-315 | a text with two blank lines in a row for which a separator is lost |
| MarkdownChunker.HeadingShape | scripts/build_labeled_dataset.py:161 | a line is a heading with a level and a title exactly if it is that many hashes, one to six, whitespace, the title, and whitespace at the end |
| MarkdownChunker.HeadingReadsBack | scripts/build_labeled_dataset.py:161 | a written heading reads back with its level and title, up to six levels |
| MarkdownChunker.HeadingsOutsideBlocks | scripts/build_labeled_dataset.py:219-241 | a heading counts iff an even number of fence lines precedes it and no earlier line has since then opened more pre tags than were closed |
| MarkdownChunker.HeadingsBetweenFences | scripts/build_labeled_dataset.py:219-241 | behind an odd number of lines that open with three backticks nothing is a heading, and without pre tags every other line behind an even number is the heading it looks like |
| MarkdownChunker.TagsCounted | scripts/build_labeled_dataset.py:163-164 | the pre tags that a line opens and closes are counted by the places where they stand |
| MarkdownChunker.PopAndPush | scripts/build_labeled_dataset.py:250-253 | popping deeper and equal levels off an increasing stack keeps exactly the higher headings |
| MarkdownChunker.OneMoreLine | scripts/build_labeled_dataset.py:250-254 | how the headings visible from a line change with the next line |
| MarkdownSections.CutAtHeadings | scripts/build_labeled_dataset.py:195-263 | the loop makes exactly the sections that start at the first line and at each heading, up to the next heading, with the titles of the headings whose level is below that of every later one |
| MarkdownSections.SectionIsLocated | scripts/build_labeled_dataset.py:208-222 | a section's text is found at its start offset, with right lines, iff its first line is not empty |
| MarkdownSections.SectionsTileText | scripts/build_labeled_dataset.py:205-263 | sections of a text that starts with no newline tile it, with one newline between neighbours |
| MarkdownSections.SectionsAreThoseOfHeadings | scripts/build_labeled_dataset.py:240-258 | every heading starts a section, and nothing but the first line and headings does |
| MarkdownSections.PathWithinSection | scripts/build_labeled_dataset.py:250-254 | between two headings the visible titles do not change |
| MarkdownSections.ChunkMarkdown | scripts/build_labeled_dataset.py:179-273 | every heading starts a chunk that carries its path, and no chunk holds a heading behind its first line; each section is one chunk if it fits and is cut as `SplitChunkBySize` says if not; every chunk fits, all other characters than newlines are kept in order, and unless a separator is lost every chunk is found at its offset, in order, with right lines |
| MarkdownSections.SpacedTextKeepsPositions | scripts/build_labeled_dataset.py:276-285 | a text without two blank lines in a row keeps all positions, whatever the limit |
| Spreadsheet.TemplateWriter.AddOffsetCre | application/utils/spreadsheet.py:326-356 | ends on cyclic links; one row for each newly visited CRE, in pre-order with depths; every visited CRE's links are followed or noted; fails exactly on a reached CRE that is not stored |
| Spreadsheet.SubtreeGrows | application/utils/spreadsheet.py:344-351 | appending a child's rows keeps the nearest row one level up a CRE that contains the row's CRE |
| Spreadsheet.WalkStaysInside | application/utils/spreadsheet.py:340-353 | whatever a covered CRE reaches through containments is covered |
| Spreadsheet.ListRoot | application/utils/spreadsheet.py:361-366 | rows stay distinct exactly when the next root is not reached from an earlier one |
| Spreadsheet.GenerateMappingTemplateFile | application/utils/spreadsheet.py:320-380 | refused exactly when a reached CRE is not stored or a related one is not reached; otherwise exactly the reached CREs are listed, each once iff no root is reached from an earlier one, below their containers, within the header's columns |

## Left out

- HTTP, JSON, SQL sessions, queries and the CLI: represented by values and parameters.
- The graph library: `Graphs.FindCycle` stands for its cycle search, hierarchy and path queries are not modelled.
- Neo4j, embeddings, language models, PDF and HTML fetching, feature flags, migrations: calls into other systems.
- Python's recursion limit and memory: all recursion is unbounded here.
- Digits and letter case: ids use ASCII digits and names are compared in ASCII lower case.
- CresCsvExport.ExportPaths: the rows' resource columns, descriptions and tags are not modelled.
- NodeCollection.Collection.AddCre: descriptions, tags and lookups by missing ids are not modelled; rows always have their internal id.
- NodeCollection.Collection.AddLink: does not say which of several rows of one pair is changed, as the query does not either.
- NodeCollection.Collection.AddNode: updates of a stored resource's fields and embeddings are not modelled; resources and their vertices are named by the id of the document.
- Registration.CresFound: a document with an id is looked up by it among the internal ids, which are random, so it is not found; one without is found under its key.
- NodeCollection.Collection.LinkAll: a resource that waits for a CRE is linked by its key, while the program looks it up again by all its fields.
- NodeCollection.Collection.RegisterCre: the outcome is stated for acyclic graphs and documents in which PartOf joins CREs only, since a cycle that is there already is an error of its own; which edges between CREs and resources a registration adds is stated by `AddLink` for one call, not for a whole tree.
- Registration.RegistersIff: leaves out resources that have the name of a CRE or a link of unknown type, which are refused only if their pair is new, and CREs that are named before the document brings them along; `WithCre` says what happens to them, and `RegisterCre` is proved to do it.
- NodeCollection.LoadedInStepIff: says nothing about graphs for which a link was refused; `WithGraph` says when they are acyclic.
- Hydration.LoadFromTables: except for acyclicity, claims are for tables whose linked documents differ in name, because equal names raise an error.
- ImportDiff.DiffStandards: the linked CREs that a serialized entry may carry, and the JSON round trip of change sets, are not modelled; a content hash is the five fields themselves.
- ImportApply.FindRow: the node table is its Standard rows, so the filter on the node type is not modelled.
- ImportApply.OrderDoesNotMatter: claims are for change sets with one operation for each key whose documents carry that key, as every computed difference has.
- ImportRuns.StagedRun.Apply: effects after the commit are off, succeed or raise; what they do is not modelled.
- ImportRuns.SecondCommitIff: claims are for steps without foreign edits, since another writer may restore the table the first run started from.
- ImportRuns.ConflictCheckIsSound: assumes that entries are filed under their own standard's name and that live rows have all key fields, one row for each key.
- GapAnalysis.GapMerge: storing the result in the cache, and which results count as material, are not modelled.
- GapLock.ReachableStatesAreSafe: assumes that no worker crashes between taking and releasing the lock, that the lock does not expire, and that setting its lifetime does not fail; whether a worker ever gets the lock is left to the scheduler.
- OpenapiLoader.FollowPath: references follow the source, which does not undo the escapes of RFC 6901, section 4.
- OpenapiLoader.SucceedsIffAcyclic: relates failure to cycles of references where siblings neither carry nor hide one; that is enough but not necessary, and the condition for all documents is `FailsIff`. Mappings have each key once, as Python's have.
- OpenapiLoader.CircularIsReal: claims are for documents whose siblings carry no reference; a sibling whose reference leads nowhere does no harm either.
- OpenapiLoader.ReachedCycleFails: claims are for documents whose siblings hide no reference, like those of `SuccessBoundsChains`; hiding one that lies on no cycle does no harm either.
- MarkdownSections.ChunkMarkdown: normalisation of the text before chunking is not modelled; its one effect used here is that the text starts with no newline.
- MarkdownSections.SectionsTileText: a text that starts with a newline is only covered by `SectionIsLocated` and by the statement about kept characters.
- Spreadsheet.GenerateMappingTemplateFile: the order of siblings, the fixed columns for standards and the `id:name` cell text are not modelled.
