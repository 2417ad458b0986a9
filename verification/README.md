# Platform readiness, migrations, orchestration and retries: a verified model

This project models four parts of NovaForge AI and proves what they guarantee.

- **The migration history** (`backend/alembic/versions`). A schema maps table names to columns, and a column to its
  type. Class `Schemas.Database` holds one and has a method for every loop the migrations run: unconditional and
  check-first creates, the four ways of dropping (unconditional, from a snapshot, with a fresh check, swallowing
  errors), conditional column additions, unconditional and guarded renames. Each method is proved to leave what a
  function on schemas says. A migration of 0007-0022 is its table list, its drop discipline and its columns
  (`Migrations`). `Walks` proves the exact state after every up/down walk over any chain of such migrations, and
  `Revisions` applies it to the sixteen migrations themselves, to 0001, and to the overlap of 0002 and 0009.
  `PathIndependence` says when that state depends only on the revision reached. `ColumnDrops` models the downgrades
  that take columns back. `Renames` treats 0004_sre_rename_tables and 0044_merge_sre_rename, and `BranchOrder` the
  branch beside the main line.
- **The revision graph** (`migration_head`). `RevisionGraph` models the scan, the inverse index and the heads, and
  proves what one head means for reachability. `RepositoryGraph` applies it to the forty-six files of the repository.
- **The route inventory and the verdict** (`route_inventory`, `collect_readiness`). `PathNames` is the path
  canonicaliser, `Routes` the flattening of nested routers, `Inventory` the counting, `Readiness` the verdict.
- **Two sequencers**: the agent pipeline (`Orchestrator`) and the request loop of the SDK clients (`Retry`).

`Sequences`, `Order` and `TableLists` hold what the others share. Automatic induction is switched off for every lemma,
so each induction is written out.

## What the code does and does not keep

Some expected properties fail. The model keeps the code as it is, and proves exactly when the property holds.

- Undoing a guarded migration restores the schema only when none of its tables existed before
  (`Migrations.RoundTripIff`). 0009 shares two tables with 0002 and takes them away
  (`Revisions.AutomationLosesTwoTables`).
- 0019 never drops the columns it adds, and a downgrade drops listed tables that it did not create. So the schema that
  walks over 0007-0022 leave at a revision is the same for all of them, with any metadata, if and only if the start
  schema holds no listed table of a migration that can be undone and the metadata already has those columns
  (`Revisions.SchemaIsPathIndependentIff`). A schema that 0002 was applied to never qualifies
  (`Revisions.WorkflowSchemaIsPathDependent`).
- 0029 and 0032 do drop the columns they add, even those that were there before: their round trip needs each column to
  be absent (`ColumnDrops.StripRoundTripIff`). The models already hold these columns
  (backend/app/iam/models.py:239-259, backend/app/automation/models.py:124), so `iam_sessions` and `automation_tasks`,
  created from them by 0016 and 0009, come back narrower (`Revisions.SessionsKeptIff`, `Revisions.TasksKeptIff`).
- The unconditional drops of 0011 and 0012 can raise if and only if the metadata lacks one of their tables
  (`Revisions.NoStepRaisesIff`); which walks then raise is in `Walks.WalkExact` and `Walks.NeverBlockedMeans`.
- 0044_merge_sre_rename renames on the way down even where it did nothing on the way up. After 0004_sre_rename_tables,
  which always precedes it, its downgrade brings the old names back, and the downgrade of 0004_sre_rename_tables then
  raises (`Renames.SreMergeUndoesTooMuch`). The docstring of 0044 calls its renames idempotent; that holds of the
  upgrade (`Renames.SreMergeTwice`).
- `single_head` does not exclude a cycle that never reaches the head (`RevisionGraph.SingleHeadWithStrayCycle`). Every
  revision reaches the head exactly when no cycle is a trap (`RevisionGraph.SingleHeadIff`).
- When two files list one revision, their order can show in the report (`RevisionGraph.OrderMayShow`); exactly when it
  does is in `RevisionGraph.ReportOrderIrrelevantIff`.
- A literal empty pair of braces in a path is merged with a parameter, and nothing else is merged wrongly
  (`PathNames.CanonicalEqualIff`, `PathNames.MergedWithParameterIff`).

The inventory hands down the prefix of the innermost include only. That is enough because the framework records fully
accumulated prefixes in its includes, which the audit test of the repository documents: `Routes.FlattenIsFullIff`
gives the exact condition and `Routes.AccumulatedIsFull` the consequence.

## Model

| member | source | states |
|---|---|---|
| Schemas.Database.CreateTable | backend/alembic/versions/0002_automation.py:23-38 | one unconditional create: it adds the table, or raises and changes nothing when the name is taken |
| Schemas.Database.DropTable | backend/alembic/versions/0001_multimodal.py:279-280 | one unconditional drop: it removes the table, or raises and changes nothing when there is none |
| Schemas.Database.RenameTable | backend/alembic/versions/0004_sre_rename_tables.py:23 | one rename: the table moves with its contents; a missing source or an existing target raises and changes nothing |
| Schemas.Database.CreateInOrder | backend/alembic/versions/0002_automation.py:17-212 | the loop of unconditional creates leaves the state and error of `CreateEach` |
| Schemas.CreateEachExact | backend/alembic/versions/0001_multimodal.py:17-266 | unconditional creates finish if and only if the names are distinct and none exists, and then add exactly those tables |
| Schemas.Database.CreateFromMetadata | backend/alembic/versions/0009_automation_tasks.py:33-42 | create with `checkfirst`: every listed table the metadata knows and the database lacks is created; existing tables are untouched |
| Schemas.Database.AddMissingColumns | backend/alembic/versions/0019_marketplace_ecosystem.py:35-58 | the add-column loop: every table keeps its columns and gains exactly the listed ones it lacks; absent tables are skipped |
| Schemas.Database.DropIfPresent | backend/alembic/versions/0007_knowledge_rag.py:43-49 | the drop loop guarded by a snapshot taken once leaves the state and error of `DropExisting` |
| Schemas.DropExistingExact | backend/alembic/versions/0008_marketplace.py:44-50 | a snapshot-guarded drop loop raises if and only if an existing table is listed twice; otherwise exactly the listed tables go |
| Schemas.Database.DropIfExists | backend/alembic/versions/0002_automation.py:215-231 | the drop loop that looks each table up just before dropping it |
| Schemas.DropCheckedExact | backend/alembic/versions/0002_automation.py:215-231 | such a loop never raises and removes exactly the listed tables |
| Schemas.Database.DropInOrder | backend/alembic/versions/0011_security_platform.py:46-48 | the unconditional drop loop leaves the state and error of `DropEach` |
| Schemas.DropEachExact | backend/alembic/versions/0012_quality_engine.py:41-43 | unconditional drops finish if and only if the names are distinct and all exist, and then exactly those tables go |
| Schemas.DropEachStops | backend/alembic/versions/0001_multimodal.py:269-280 | when the table at place k is the first one missing, the k tables before it are gone, nothing else is, and the error names it |
| Schemas.Database.DropSwallowing | backend/alembic/versions/0013_incident_platform.py:40-45 | the error-swallowing drop loop removes exactly the listed tables that exist |
| Schemas.CreateThenDrop | backend/alembic/versions/0001_multimodal.py:17-280 | creates undone in reverse order: both ways of dropping restore the schema whenever the creates succeed |
| Schemas.Database.RenameInOrder | backend/alembic/versions/0004_sre_rename_tables.py:22-33 | the unconditional renames leave the state and error of `RenameEach` |
| Schemas.Database.RenameIfApplicable | backend/alembic/versions/0044_merge_sre_rename.py:38-57 | the guarded, error-swallowing renames leave the state of `RenameGuarded` |
| Migrations.RunUpgrade | backend/alembic/versions/0019_marketplace_ecosystem.py:27-58 | an upgrade creates its missing tables and then adds its missing columns |
| Migrations.RunDowngrade | backend/alembic/versions/0012_quality_engine.py:41-43 | a downgrade runs its drop discipline over its list, forwards or backwards |
| Migrations.DowngradeExact | backend/alembic/versions/0011_security_platform.py:46-48 | the three drop disciplines agree on the result whenever they finish; only the unconditional one can raise, exactly on a missing table |
| Migrations.DowngradeStops | backend/alembic/versions/0012_quality_engine.py:41-43 | an unconditional downgrade that meets a missing table raises on it and keeps what it would have dropped later: the rest of the list, or its beginning when it runs backwards |
| Migrations.RoundTripIff | backend/alembic/versions/0010_delivery.py:34-52 | up and down again restores the schema if and only if it held none of the listed tables and already had every added column |
| Migrations.ReapplyIff | backend/alembic/versions/0019_marketplace_ecosystem.py:27-66 | up, down, up equals up if and only if every listed table that predates the migration has the shape in the metadata |
| Migrations.ColumnsSurvive | backend/alembic/versions/0019_marketplace_ecosystem.py:35-66 | whatever its drop discipline, a downgrade that finishes keeps every column the upgrade added, and no column that was there before changes |
| Migrations.SharedTablesAreLost | backend/alembic/versions/0009_automation_tasks.py:45-51 | a guarded migration undone on a schema built by an earlier one takes exactly the shared tables; the earlier checked downgrade still works, an unconditional one would raise |
| Walks.EverUndoneMeans | backend/alembic/versions/0009_automation_tasks.py:45-51 | a migration counts as undone if and only if some prefix of the walk ends in its downgrade |
| Walks.PeakMeans | backend/alembic/versions/0019_marketplace_ecosystem.py:27-66 | the peak of a walk counts exactly the later migrations applied since a migration was last undone |
| Walks.WalkExact | backend/alembic/versions/0009_automation_tasks.py:33-51 | for every start schema, metadata and up/down walk: it finishes if and only if none of its steps is blocked, and then every table is what its history says, columns included |
| Walks.NeverBlockedMeans | backend/alembic/versions/0011_security_platform.py:34-48 | a walk is blocked exactly when some prefix of it downgrades an unconditional migration with a table the metadata lacks that the start schema lacked or that was dropped before |
| Walks.NoWalkRaisesIff | backend/alembic/versions/0011_security_platform.py:34-48 | from any start schema, no walk raises if and only if the metadata knows every unconditionally dropped table |
| Walks.UndoTwiceIsBlocked | backend/alembic/versions/0012_quality_engine.py:35-43 | undo, redo, undo of an unconditional migration with a table unknown to the metadata is blocked, whatever the start |
| Walks.TablesAfterWalk | backend/alembic/versions/0013_incident_platform.py:34-45 | for any start schema, any metadata and any walk that finishes: which tables exist, as start tables never dropped and applied tables the metadata knows |
| PathIndependence.TablesDependOnPositionIff | backend/alembic/versions/0013_incident_platform.py:34-45 | for every start schema and metadata: which tables exist after a walk that finishes depends only on the position if and only if the start schema holds no table of a migration that can be undone |
| Walks.TablesWhenOverlapping | backend/alembic/versions/0009_automation_tasks.py:18-51 | when the start schema meets one list only, that overlap is gone once its migration was undone, until it is applied again |
| PathIndependence.SchemaDependsOnPositionIff | backend/alembic/versions/0019_marketplace_ecosystem.py:35-66 | for every start schema and metadata: the whole schema after a walk that finishes depends only on the position if and only if, besides, each column an undoable migration adds was in its table already or is added earlier |
| PathIndependence.KnownSchemaIff | backend/alembic/versions/0019_marketplace_ecosystem.py:35-66 | when no walk raises, this means a start schema without listed tables and a metadata with every added column |
| PathIndependence.AddedColumnOutlives | backend/alembic/versions/0019_marketplace_ecosystem.py:61-66 | a column new to its table is there after any finishing walk past the adding migration, also once that is undone, and missing after any that stopped short |
| Revisions.ChainWellFormed | backend/alembic/versions/0022_aiml.py:17-31 | the sixteen lists of 0007-0022 hold no table twice, and 0019 adds columns only to tables of 0008 |
| Revisions.NoStepRaisesIff | backend/alembic/versions/0011_security_platform.py:18-48 | over 0007-0022, from any schema, no walk raises if and only if the metadata has all tables of 0011 and 0012 |
| Revisions.UnconditionalOrder | backend/alembic/versions/0011_security_platform.py:46-48 | 0011 drops first to last and 0012 last to first: without the first table of its order, each raises on it with nothing dropped |
| Revisions.TablesAfterWalk | backend/alembic/versions/0009_automation_tasks.py:18-51 | the exact table set after any finishing walk over 0007-0022, from any schema and with any metadata |
| Revisions.TablesAfterWalkFrom0006 | backend/alembic/versions/0009_automation_tasks.py:18-51 | from a schema that meets only the list of 0009, as 0002 leaves it: the shared tables are gone once 0009 was downgraded, unless it is applied again |
| Revisions.TablesArePathIndependentIff | backend/alembic/versions/0013_incident_platform.py:19-45 | over 0007-0022, with any metadata, the table set at a revision does not depend on the walk if and only if the start schema holds no listed table, except of a 0011 or 0012 that has a table neither the metadata nor the start schema knows |
| Revisions.WorkflowSchemaIsPathDependent | backend/alembic/versions/0002_automation.py:81-94 | from every schema that 0002 was applied to, with any metadata, the tables and hence the schema depend on the walk |
| Revisions.SchemaIsPathIndependentIff | backend/alembic/versions/0019_marketplace_ecosystem.py:35-66 | over 0007-0022, with any metadata, the full schema does not depend on the walk if and only if its tables do not and the metadata has the columns of 0019 |
| Revisions.KnownSchemaIsPathIndependentIff | backend/alembic/versions/0019_marketplace_ecosystem.py:35-66 | the same two conditions when no walk can raise: no listed table in the start schema, and the columns of 0019 in the metadata |
| Revisions.MultimodalRoundTrip | backend/alembic/versions/0001_multimodal.py:17-280 | 0001 applies if and only if none of its eighteen tables exists, and its downgrade then restores the schema |
| Revisions.WorkflowRoundTrip | backend/alembic/versions/0002_automation.py:17-223 | 0002 applies if and only if none of its thirteen tables exists, and its downgrade then restores the schema |
| TableLists.SharedTables | backend/alembic/versions/0002_automation.py:81-94 | 0002 and 0009 list exactly `automation_approvals` and `automation_checkpoints` in common |
| Revisions.AutomationLosesTwoTables | backend/alembic/versions/0009_automation_tasks.py:18-51 | on a schema built by 0002, 0009 up and down loses exactly those two tables; the downgrade of 0002 still restores the original schema, and without its check it would raise |
| Revisions.EcosystemReapplyIff | backend/alembic/versions/0019_marketplace_ecosystem.py:19-66 | for 0019, up, down, up equals up if and only if each of its own tables was absent or had its metadata shape |
| Revisions.EcosystemColumnsSurvive | backend/alembic/versions/0019_marketplace_ecosystem.py:35-66 | undoing 0019 keeps each of its sixteen columns, changes no older column and leaves no other new one |
| Schemas.Database.DropColumns | backend/alembic/versions/0029_zero_trust.py:75-79 | the error-swallowing drop-column loop takes exactly the listed columns that exist |
| ColumnDrops.RunStripDown | backend/alembic/versions/0032_workflow.py:51-70 | such a downgrade drops its tables and then its columns, last first |
| ColumnDrops.StripRoundTripIff | backend/alembic/versions/0029_zero_trust.py:44-79 | up and down again restores the schema if and only if it held none of the listed tables and none of the added columns |
| ColumnDrops.StripReapplyIff | backend/alembic/versions/0029_zero_trust.py:44-79 | going down and up again restores a table if and only if each added column it had before has the type the migration declares |
| Revisions.SessionsKeptIff | backend/alembic/versions/0029_zero_trust.py:29-79 | 0029 up and down keeps `iam_sessions` as 0016 created it if and only if the metadata has none of the twelve columns there; those it has are lost |
| Revisions.ScopeChangesType | backend/app/iam/models.py:242 | a `scope` column of another type than 0029 declares is not restored by applying 0029 again |
| Revisions.TasksKeptIff | backend/alembic/versions/0032_workflow.py:27-70 | 0032 up and down keeps `automation_tasks` as 0009 created it if and only if the metadata lacks `workflow_version_id` there |
| Renames.RenameRoundTrip | backend/alembic/versions/0004_sre_rename_tables.py:22-33 | any list of unconditional renames that succeeds is undone exactly, names and contents, by the turned-round list |
| Renames.RenameSucceedsIff | backend/alembic/versions/0004_sre_rename_tables.py:22-26 | separate renames succeed if and only if every source exists and no target does |
| Renames.SreRoundTrip | backend/alembic/versions/0004_sre_rename_tables.py:22-33 | the four renames of the repository: when they apply, and that the downgrade restores the schema |
| Renames.GuardedLookup | backend/alembic/versions/0044_merge_sre_rename.py:38-46 | guarded renames act independently: each applicable pair moves its table, and nothing else changes |
| Renames.GuardedRoundTripIff | backend/alembic/versions/0044_merge_sre_rename.py:38-57 | guarded renames up and down restore the schema if and only if no pair starts with only its target there |
| Renames.SreMergeTwice | backend/alembic/versions/0044_merge_sre_rename.py:38-46 | the upgrade of 0044 is idempotent on every schema |
| Renames.MergeUndoesTooMuch | backend/alembic/versions/0044_merge_sre_rename.py:38-57 | after unconditional renames, the guarded ones do nothing on the way up and rename everything back on the way down |
| Renames.SreMergeUndoesTooMuch | backend/alembic/versions/0004_sre_rename_tables.py:29-33 | 0004 up, 0044 up and down, then 0004 down raises on `sre_backups`, for every schema 0004 accepts |
| BranchOrder.MixedRunSplits | backend/alembic/versions/0004_sre_rename_tables.py:16-33 | a walk interleaved with applications and undos of a branch on other tables finishes if and only if walk and branch do, and leaves the sum of what they leave |
| BranchOrder.AppliedOnce | backend/alembic/versions/0004_sre_rename_tables.py:22-26 | applied once anywhere in a walk: the run finishes exactly when the walk alone does, every source is there at the start and no target is; then each target holds what its source held, no source is left, and all else is as without the branch |
| BranchOrder.AppliedAndUndone | backend/alembic/versions/0004_sre_rename_tables.py:22-33 | applied and later undone: the same condition, and the run leaves exactly what the walk alone leaves |
| Revisions.SreBranchInterleaves | backend/alembic/versions/0004_sre_rename_tables.py:16-33 | wherever in a walk over 0007-0022 the branch 0004_sre_rename_tables is applied or undone, the outcome and the final schema are the same |
| Revisions.SreBranchApplied | backend/alembic/versions/0004_sre_rename_tables.py:22-26 | the branch applied anywhere in a walk over 0007-0022, with its eight names written out: when it can run, and that the new names then hold the old tables |
| Revisions.SreBranchUndone | backend/alembic/versions/0004_sre_rename_tables.py:22-33 | applied and later undone in such a walk, the branch leaves no trace |
| RevisionGraph.ScanVersions | backend/app/platform_readiness.py:37-42 | the scan loop builds `GraphOf` the files: tuples list several revisions, later files overwrite earlier ones |
| RevisionGraph.GraphLookup | backend/app/platform_readiness.py:36-42 | a revision is in the graph if and only if some file lists it, with the parents of the last such file |
| RevisionGraph.OneMoreFile | backend/app/platform_readiness.py:34-42 | what one more file does to the graph, for each form of its revision and parent values |
| RevisionGraph.BuildChildren | backend/app/platform_readiness.py:43-46 | the nested loop yields exactly the inverse of the parent relation, each child once, dangling parents included |
| RevisionGraph.MigrationHead | backend/app/platform_readiness.py:19-50 | the whole scan: the report is a function of the graph, and its heads are the revisions no one names, strictly sorted |
| RevisionGraph.HeadOrCycle | backend/app/platform_readiness.py:43-47 | from any revision, child edges lead to a head or into a cycle |
| RevisionGraph.AllReachHeadIff | backend/app/platform_readiness.py:43-47 | every revision reaches some head if and only if no cycle is a trap: each revision on one has a descendant that does not lead back |
| RevisionGraph.AcyclicReachesHead | backend/app/platform_readiness.py:43-47 | in an acyclic graph every revision reaches a head; a nonempty one has a head |
| RevisionGraph.NoHeadMeansCycle | backend/app/platform_readiness.py:47 | no head on a nonempty scan proves a cycle |
| RevisionGraph.SingleHeadIff | backend/app/platform_readiness.py:48-50 | with a single head, every revision is it or its ancestor if and only if no cycle is a trap |
| RevisionGraph.SingleHeadWithStrayCycle | backend/app/platform_readiness.py:48-50 | three files whose scan reports a single head that two of the revisions, on a stray cycle, do not reach |
| RevisionGraph.AddRevision | backend/app/platform_readiness.py:39-47 | a fresh revision with parents D turns heads H into (H - D) + {r} and closes no cycle |
| RevisionGraph.LineHasOneHead | backend/app/platform_readiness.py:39-47 | a linear history of any length is acyclic and has its last revision as only head |
| RevisionGraph.MergeRestoresOneHead | backend/app/platform_readiness.py:48-50 | a fresh revision whose parents cover the heads is the single head |
| RevisionGraph.AscendingNamesAcyclic | backend/app/platform_readiness.py:43-47 | when parents sort before their children by identifier, the graph is acyclic |
| RevisionGraph.GraphOrderIrrelevantIff | backend/app/platform_readiness.py:20-42 | the order of the files never matters to the graph if and only if files listing the same revision agree on its parents |
| RevisionGraph.ReportOrderIrrelevantIff | backend/app/platform_readiness.py:20-50 | the order of the files never matters to the report if and only if every scanned revision that some file names as a parent is named by all the files of some revision |
| RevisionGraph.AgreeFixesNaming | backend/app/platform_readiness.py:39-47 | files that agree on parents meet that condition, so their order never shows in the report |
| RevisionGraph.DisagreementMayNotShow | backend/app/platform_readiness.py:39-47 | two files that disagree and still give one report in both orders |
| RevisionGraph.OrderMayShow | backend/app/platform_readiness.py:39-50 | three files and two orders of them, with both reports: one names a single head, the other two heads |
| RepositoryGraph.BranchThenMerge | backend/alembic/versions/0044_merge_sre_rename.py:17-18 | a line, a branch off it, a merge and one more revision: two heads after the branch, one after the merge, and no cycle |
| RepositoryGraph.RepositoryHasOneHead | tests/backend/final_integration/test_production_readiness.py:132-135 | for the forty-six files of the repository, in any order, the head is 0045 and every revision is an ancestor of it |
| Order.Sorted | backend/app/platform_readiness.py:47 | sorting a set yields its elements, each once, in strictly ascending order |
| Order.StringLessMeans | backend/app/platform_readiness.py:47 | the smaller string is a proper prefix of the other or has the smaller character where the two first differ |
| Order.AscendingIsUnique | backend/app/platform_readiness.py:47 | only one ascending sequence has given elements, so sorted output is determined |
| PathNames.MatchAtStartIff | backend/app/platform_readiness.py:90 | the scanner starts a match exactly where the pattern has one, and the match is unique |
| PathNames.CanonicalIdempotent | backend/app/platform_readiness.py:90 | canonicalising twice is canonicalising once, on every string |
| PathNames.CanonicalEqualIff | backend/app/platform_readiness.py:87-91 | on all strings: canonically equal if and only if the strings split into the same characters, with a parameter or an empty pair of braces in the same places |
| PathNames.MergedWithParameterIff | backend/app/platform_readiness.py:90 | merged with a parameter are exactly the parameters and the literal empty pair of braces |
| PathNames.MergedWithDeclaredIff | backend/app/platform_readiness.py:87-91 | a string is canonically equal to a declared template if and only if it has its literals and, for each parameter, a parameter or an empty pair of braces |
| PathNames.DeclaredEqualIff | backend/app/platform_readiness.py:87-91 | two declared templates are canonically equal if and only if they are equal with parameter names erased |
| Routes.Iterate | backend/app/platform_readiness.py:69-80 | the recursive loop over nested routers terminates and yields `Flatten` |
| Routes.LeafIsListedIff | backend/app/platform_readiness.py:77-79 | a leaf gives one entry exactly when it has methods and a path, and none otherwise |
| Routes.IncludeIsListed | backend/app/platform_readiness.py:72-74 | an include is listed under its own prefix only, and a missing prefix counts as the empty one |
| Routes.HasEntryIff | backend/app/platform_readiness.py:69-80 | in every tree, an address has an entry if and only if it leads to a leaf with methods and a path; its path ends in the leaf's |
| Routes.FlattenConcat | backend/app/platform_readiness.py:70-80 | flattening distributes over concatenation of route lists |
| Routes.FlattenIsTraversal | backend/app/platform_readiness.py:69-80 | exactly one entry for each leaf with methods and path, no leaf twice, in traversal order, its path being the innermost prefix and its own path |
| Routes.FlattenIsFullIff | backend/app/platform_readiness.py:72-74 | for every tree of declared routers, the entries are all serving endpoints at their full paths if and only if every include of a router that serves itself records the accumulated prefix |
| Routes.AccumulatedIsFull | tests/backend/final_integration/test_platform_audit.py:20-36 | with accumulated contexts, as the framework records them, every serving endpoint is listed at its full declared path, and nothing else |
| Routes.TwoIncludesDeep | backend/app/api/router.py:3 | an endpoint two includes deep is listed at own prefixes, include prefixes and path put together in order |
| Routes.ParentPrefixIsNotEnough | tests/backend/final_integration/test_platform_audit.py:23-24 | a context with the prefix of the direct parent alone gives a wrong path below the second level |
| Inventory.Count | backend/app/platform_readiness.py:84-92 | the counting loop agrees with the pairwise definition, and the counts sum to the number of methods over all routes |
| Inventory.TwiceIffTwo | backend/app/platform_readiness.py:92-93 | a count above one means two different routes, and the reverse |
| Inventory.OccursMeans | backend/app/platform_readiness.py:94-96 | a part occurs in a path if and only if the path splits around it |
| Inventory.ApiRoutesExact | backend/app/platform_readiness.py:82 | the filter keeps every API route as often as it occurs, and no other |
| Inventory.DoubledExact | backend/app/platform_readiness.py:94-96 | a string is reported as doubled if and only if an API route has it as its path and it splits around one of the three texts; the report is sorted |
| Inventory.RouteInventory | backend/app/platform_readiness.py:66-98 | the inventory: total and duplicates with their counts; a path is doubled if and only if an API route has it and it splits around one of the three texts |
| Inventory.DuplicatesExact | backend/app/platform_readiness.py:84-93 | a method and path is reported if and only if two API routes serve it, with their exact number |
| Inventory.DeclaredDuplicatesExact | backend/app/platform_readiness.py:66-98 | total, duplicates with their exact numbers, and doubled paths are those of the declared API endpoints at their full paths |
| Readiness.CollectBlockers | backend/app/platform_readiness.py:146-153 | each blocker is there exactly when its test says so, with the data it reports, in order; of duplicates and doubled paths the first five, sorted |
| Readiness.CollectWarnings | backend/app/platform_readiness.py:154-157 | each warning is given exactly when its flag calls for it, and there is none exactly on a clean tree without debug mode |
| Readiness.CollectReadiness | backend/app/platform_readiness.py:137-169 | READY if and only if nothing blocks, the tree is clean and debug is off; READY_WITH_WARNINGS if and only if nothing blocks but one of these fails; BLOCKED otherwise; with the scan, the route total, blockers and warnings |
| Readiness.UnblockedIff | backend/app/platform_readiness.py:144-158 | nothing blocks if and only if there is exactly one head, no API route clashes or is doubled, and event names are unique |
| Readiness.DeclaredUnblockedIff | backend/app/platform_readiness.py:137-158 | the same for declared routers, in terms of their full paths |
| Readiness.VerdictIsSound | backend/app/platform_readiness.py:137-158 | a status other than BLOCKED guarantees sound API routes and one head, of which every migration is an ancestor exactly when no cycle is a trap, hence on every acyclic graph |
| Readiness.SoundRoutesAreApart | backend/app/platform_readiness.py:82-93 | when nothing is reported, no two API routes share a method and a template up to parameter names |
| Orchestrator.AgentOrchestrator.Register | agents/orchestrator.py:10-11 | afterwards the agent is found under its name, and what is found under any other name is unchanged |
| Orchestrator.AgentOrchestrator.Get | agents/orchestrator.py:13-14 | none exactly for a name that is not registered, and otherwise the registered agent of that name |
| Orchestrator.AgentOrchestrator.RunPipeline | agents/orchestrator.py:16-29 | the pipeline loop yields `Pipeline` of the registry |
| Orchestrator.AgentOrchestrator.RunParallel | agents/orchestrator.py:31-47 | each named agent answers the same input, unregistered names get the error; order and repetition do not matter |
| Orchestrator.PipelineComposes | agents/orchestrator.py:16-29 | running xs and then ys is running ys from the final input of xs, with later results overlaid |
| Orchestrator.FinalInputExact | agents/orchestrator.py:25-27 | the final input in closed form: the original one with the last registered agent's result |
| Orchestrator.PipelineExact | agents/orchestrator.py:20-29 | exactly the given names have results, each from its last mention, answering the result of the closest registered agent before it |
| Orchestrator.UnregisteredResult | agents/orchestrator.py:21-24 | a name no agent has gets the error message with that name as its result |
| Orchestrator.LastResultIsHandedOn | agents/orchestrator.py:25-27 | the result of a registered last agent is in the final input under `previous_result`; an unregistered one leaves the input alone |
| Orchestrator.FinalInputKeepsTheRest | agents/orchestrator.py:18-27 | the final input differs from the given one at `previous_result` at most |
| Orchestrator.PipelineOfRegistered | agents/orchestrator.py:21-24 | leaving out unregistered names changes no registered agent's result and not the final input |
| Orchestrator.PipelineIsParallel | agents/orchestrator.py:16-47 | when no registered agent among those named looks at the previous result, pipeline and parallel run give the same results |
| Retry.Request | backend/sdk/client.py:53-109 | exact number of attempts, reply and sleeps for every outcome sequence and retry limit; the first outcome that is not a timeout or failed connection decides: which error each status raises, whether the body can be read, or the body; a connection error exactly when every allowed attempt timed out or failed to connect; total sleep 2^(a-1) - 1 after a attempts |
| Retry.BackoffSum | backend/sdk/client.py:105-106 | n sleeps of the backoff add up to 2^n - 1 |

## Left out

- Foreign keys, indexes, constraints, row contents, column attributes other than the type, and dialects: a drop that
  the database refuses because of a foreign key is not modelled.
- Transactions: a failed step ends a walk with the schema as it is at that point, without a rollback, and a swallowed
  error leaves the connection usable.
- The metadata (`Base.metadata.tables`) and the column lists inside 0001 and 0002 are parameters; the model classes
  that fill them are not part of this model.
- Inspector caching, and the unbound-connection branch of `_table_exists` in 0002: a connection is always there.
- 0003, 0004_compliance_framework, 0005, 0006, 0023-0026, 0028, 0030, 0031, 0033 and 0035-0043: create and drop loops
  over other tables, some with extra indexes and columns; only their place in the revision graph is modelled. 0045:
  one more guarded rename.
- 0027 and 0034 add and drop columns as 0029 and 0032 do, and only those two are modelled. The indexes, the foreign
  key and the empty backfill of 0029 and 0032 are left out.
- Reading, parsing and globbing the revision files: the scan starts from the extracted revision and parent values,
  which are strings.
- The route objects of the web framework: a router is a tree of includes and leaves, whose methods are a set and whose
  path is a string. How the framework fills in the prefix of an include is not part of this model; that the prefix is
  fully accumulated is taken from tests/backend/final_integration/test_platform_audit.py:23-24.
- `commit_info`, `worker_status`, `dependency_health`, `write_report` and the timestamps of the report: the clean and
  debug flags and the two event counts are inputs.
- The text of blockers and warnings: they are values that carry the same data.
- `BaseAgent` and the language models behind it: an agent is a function of its input, so agents that mutate their
  input or answer differently to equal inputs are not modelled. `get_agent_descriptions` only lists fields.
- Scheduling of coroutines, in the orchestrator as in the asynchronous client: awaits run one after the other.
- Retry.Request: the synchronous and the asynchronous client have the same loop, and it is modelled once; headers,
  URLs, payloads and the contents of responses are left out, and an attempt is its outcome: a status, and whether the
  body decodes to an object, to something else or not at all.
- The other SDK modules, the command-line tools and the scripts: they build payloads and dispatch arguments.
