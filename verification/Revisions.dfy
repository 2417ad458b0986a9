/** The migrations 0001, 0002 and 0007-0022 themselves: their table lists, their drop
    disciplines, and what the theorems about chains say of them. */
module Revisions {
  import opened Schemas
  import opened Migrations
  import opened Walks
  import opened PathIndependence
  import opened Sequences
  import opened TableLists
  import opened ColumnDrops
  import opened Renames
  import opened BranchOrder

  /** The columns 0019 adds when they are missing. */
  const ECOSYSTEM_COLUMNS := [
    ColumnSpec("marketplace_packages", "release_channel", "String(32)"),
    ColumnSpec("marketplace_packages", "provenance", "JSON()"),
    ColumnSpec("marketplace_packages", "sbom", "JSON()"),
    ColumnSpec("marketplace_packages", "moderation_status", "String(32)"),
    ColumnSpec("marketplace_packages", "health_score", "Float()"),
    ColumnSpec("marketplace_packages", "health_status", "String(32)"),
    ColumnSpec("marketplace_releases", "release_channel", "String(32)"),
    ColumnSpec("marketplace_releases", "provenance", "JSON()"),
    ColumnSpec("marketplace_releases", "sbom_ref", "String(512)"),
    ColumnSpec("marketplace_releases", "is_security_update", "Boolean()"),
    ColumnSpec("marketplace_releases", "is_critical_update", "Boolean()"),
    ColumnSpec("marketplace_releases", "is_breaking_update", "Boolean()"),
    ColumnSpec("marketplace_installations", "dependency_lock", "JSON()"),
    ColumnSpec("marketplace_installations", "rollout_strategy", "String(32)"),
    ColumnSpec("marketplace_installations", "health_status", "String(32)"),
    ColumnSpec("marketplace_installations", "license_policy_status", "String(32)")
  ]

  /** The linear stretch of the history from 0007 to 0022; position `n` is revision 0006 + n. */
  const CHAIN: Chain := [
    Migration("0007_knowledge_rag", RAG_TABLES, IfPresent, false, []),
    Migration("0008_marketplace", MARKETPLACE_TABLES, IfPresent, false, []),
    Migration("0009_automation_tasks", AUTOMATION_TABLES, IfPresent, false, []),
    Migration("0010_delivery", DELIVERY_TABLES, IfPresent, false, []),
    Migration("0011_security_platform", SECURITY_TABLES, Unconditional, false, []),
    Migration("0012_quality_engine", QUALITY_TABLES, Unconditional, true, []),
    Migration("0013_incident_platform", INCIDENT_TABLES, Swallowing, true, []),
    Migration("0014_analytics_platform", ANALYTICS_TABLES, Swallowing, true, []),
    Migration("0015_knowledge_graph", KG_TABLES, Swallowing, true, []),
    Migration("0016_enterprise_iam", IAM_TABLES, Swallowing, true, []),
    Migration("0017_billing_platform", BILLING_TABLES, Swallowing, true, []),
    Migration("0018_support_itsm", SUPPORT_TABLES, Swallowing, true, []),
    Migration("0019_marketplace_ecosystem", MARKETPLACE_ECOSYSTEM_TABLES, Swallowing, true, ECOSYSTEM_COLUMNS),
    Migration("0020_release_progressive_delivery", RELEASE_TABLES, Swallowing, true, []),
    Migration("0021_datagov", DG_TABLES, Swallowing, true, []),
    Migration("0022_aiml", AIML_TABLES, Swallowing, true, [])
  ]

  lemma {:induction false} ChainTables(i: nat)
    requires i < |CHAIN|
    ensures Distinct(CHAIN[i].tables) && forall t :: t in CHAIN[i].tables ==> Family(t) == i
  {
    if i < 8 {
      EarlyTables(i);
    } else {
      LateTables(i);
    }
  }

  lemma {:induction false} EarlyTables(i: nat)
    requires i < 8
    ensures Distinct(CHAIN[i].tables) && forall t :: t in CHAIN[i].tables ==> Family(t) == i
  {
    Family0007();
    Family0008();
    Family0009();
    Family0010();
    Family0011();
    Family0012();
    Family0013();
    Family0014();
  }

  lemma {:induction false} LateTables(i: nat)
    requires 8 <= i < |CHAIN|
    ensures Distinct(CHAIN[i].tables) && forall t :: t in CHAIN[i].tables ==> Family(t) == i
  {
    Family0015();
    Family0016();
    Distinct0016();
    Family0017();
    Family0018();
    Family0019();
    Family0020();
    Family0021();
    Distinct0021();
    Family0022();
  }

  /** Every name in the list of migration `i` tells the migration, and it adds columns only to
      tables of the earlier migration `owner`. */
  ghost predicate ByFamily(chain: Chain, owner: nat, i: nat)
    requires i < |chain| && owner < |chain|
  {
    && Distinct(chain[i].tables)
    && (forall t :: t in chain[i].tables ==> Family(t) == i)
    && (forall c :: c in chain[i].columns ==> owner < i && c.table in chain[owner].tables)
  }

  lemma {:induction false} WellFormedByFamily(chain: Chain, owner: nat)
    requires owner < |chain| && forall i :: 0 <= i < |chain| ==> ByFamily(chain, owner, i)
    ensures WellFormed(chain)
  {
    forall i | 0 <= i < |chain|
      ensures Distinct(chain[i].tables)
    {
      assert ByFamily(chain, owner, i);
    }
    forall i, j, t | 0 <= i < j < |chain| && t in chain[i].tables
      ensures t !in chain[j].tables
    {
      assert ByFamily(chain, owner, i) && ByFamily(chain, owner, j);
    }
    forall j, c | 0 <= j < |chain| && c in chain[j].columns
      ensures ListedBefore(chain, j, c.table)
    {
      assert ByFamily(chain, owner, j);
    }
  }

  lemma {:induction false} OnlyEcosystemAddsColumns(j: nat)
    requires j < |CHAIN|
    ensures CHAIN[j].columns == if j == 12 then ECOSYSTEM_COLUMNS else []
  {
  }

  lemma {:induction false} ChainByFamily(i: nat)
    requires i < |CHAIN|
    ensures ByFamily(CHAIN, 1, i)
  {
    ChainTables(i);
    OnlyEcosystemAddsColumns(i);
    if i == 12 {
      EcosystemColumnsFit();
      MarketplaceMigration();
      ByFamilyIntro(CHAIN, 1, i, ECOSYSTEM_COLUMNS);
    } else {
      ByFamilyIntro(CHAIN, 1, i, []);
    }
  }

  lemma {:induction false} ByFamilyIntro(chain: Chain, owner: nat, i: nat, columns: seq<ColumnSpec>)
    requires i < |chain| && owner < |chain| && Distinct(chain[i].tables)
    requires forall t :: t in chain[i].tables ==> Family(t) == i
    requires chain[i].columns == columns
    requires columns != [] ==> owner < i && forall c :: c in columns ==> c.table in chain[owner].tables
    ensures ByFamily(chain, owner, i)
  {
  }

  lemma {:induction false} MarketplaceMigration()
    ensures CHAIN[1].tables == MARKETPLACE_TABLES
  {
  }

  lemma {:induction false} EcosystemColumnsFit()
    ensures forall c :: c in ECOSYSTEM_COLUMNS ==> c.table in MARKETPLACE_TABLES
  {
  }

  lemma {:induction false} ChainWellFormed()
    ensures WellFormed(CHAIN)
  {
    forall i | 0 <= i < |CHAIN|
      ensures ByFamily(CHAIN, 1, i)
    {
      ChainByFamily(i);
    }
    WellFormedByFamily(CHAIN, 1);
  }

  lemma {:induction false} ColumnsExtendMarketplace(c: ColumnSpec)
    requires c in ECOSYSTEM_COLUMNS
    ensures c.table in MARKETPLACE_TABLES && c.table !in MARKETPLACE_ECOSYSTEM_TABLES
  {
    assert MARKETPLACE_TABLES[1] == "marketplace_packages";
    assert MARKETPLACE_TABLES[2] == "marketplace_releases";
    assert MARKETPLACE_TABLES[5] == "marketplace_installations";
    Family0008();
    Family0019();
  }

  /** The metadata knows the tables of 0011 and 0012, which are dropped unconditionally. */
  predicate SecurityAndQualityKnown(metadata: Schema) {
    Elements(SECURITY_TABLES) + Elements(QUALITY_TABLES) <= metadata.Keys
  }

  lemma {:induction false} UnconditionalKnownMeans(metadata: Schema)
    ensures UnconditionalKnown(CHAIN, metadata) <==> SecurityAndQualityKnown(metadata)
  {
    assert CHAIN[4].tables == SECURITY_TABLES && CHAIN[5].tables == QUALITY_TABLES;
    assert forall i :: 0 <= i < |CHAIN| && CHAIN[i].drop.Unconditional? ==> i == 4 || i == 5;
    if UnconditionalKnown(CHAIN, metadata) {
      forall t | t in Elements(SECURITY_TABLES) + Elements(QUALITY_TABLES)
        ensures t in metadata
      {
        assert t in CHAIN[4].tables || t in CHAIN[5].tables;
      }
    }
    if SecurityAndQualityKnown(metadata) {
      forall i, t | 0 <= i < |CHAIN| && CHAIN[i].drop.Unconditional? && t in CHAIN[i].tables
        ensures t in metadata
      {
        assert t in Elements(SECURITY_TABLES) || t in Elements(QUALITY_TABLES);
      }
    }
  }

  /** Whatever schema the walk starts from, no up/down walk over 0007-0022 raises if and only
      if the metadata knows every table of 0011 and 0012. */
  lemma {:induction false} NoStepRaisesIff(metadata: Schema, start: Schema)
    ensures (forall w :: Stays(|CHAIN|, w) ==> Run(CHAIN, metadata, start, w).status.Fine?) <==>
            SecurityAndQualityKnown(metadata)
  {
    ChainWellFormed();
    UnconditionalKnownMeans(metadata);
    NoWalkRaisesIff(CHAIN, metadata, start);
  }

  /** 0011 drops its tables first to last and 0012 last to first: each raises on the first table of
      its order if that is missing, and then has dropped nothing. */
  lemma {:induction false} UnconditionalOrder(schema: Schema)
    ensures "security_scans" !in schema ==>
              Downgrade(CHAIN[4], schema) == Outcome(schema, Raised(NoSuchTable("security_scans")))
    ensures "quality_duplication_groups" !in schema ==>
              Downgrade(CHAIN[5], schema) == Outcome(schema, Raised(NoSuchTable("quality_duplication_groups")))
  {
    Family0011();
    Family0012();
    assert SECURITY_TABLES[0] == "security_scans" && QUALITY_TABLES[11] == "quality_duplication_groups";
    if "security_scans" !in schema {
      FirstMissing(CHAIN[4], SECURITY_TABLES, 0, schema);
    }
    if "quality_duplication_groups" !in schema {
      FirstMissing(CHAIN[5], QUALITY_TABLES, 11, schema);
    }
  }

  lemma {:induction false} FirstMissing(m: Migration, tables: seq<string>, k: nat, schema: Schema)
    requires m.tables == tables && m.drop.Unconditional? && Distinct(tables)
    requires k < |tables| && tables[k] !in schema && k == if m.backwards then |tables| - 1 else 0
    ensures Downgrade(m, schema) == Outcome(schema, Raised(NoSuchTable(tables[k])))
  {
    DowngradeStops(m, schema, k);
    assert if m.backwards then tables[k + 1..] == [] else tables[..k] == [];
  }

  /** Which tables exist after any walk over 0007-0022 that finishes, from any schema and with any
      metadata: those of the start schema that no downgrade has dropped, and those of the applied
      migrations that the metadata knows. */
  lemma {:induction false} TablesAfterWalk(metadata: Schema, start: Schema, w: Walk)
    requires Stays(|CHAIN|, w) && Run(CHAIN, metadata, start, w).status.Fine?
    ensures Run(CHAIN, metadata, start, w).schema.Keys ==
            (start.Keys - Dropped(CHAIN, w)) + Applied(CHAIN, Position(w)) * metadata.Keys
  {
    ChainWellFormed();
    Walks.TablesAfterWalk(CHAIN, metadata, start, w);
  }

  /** From a schema that shares tables with 0009 only, as 0002 leaves it: the shared tables are
      gone once 0009 has been downgraded, unless it is applied again. */
  lemma {:induction false} TablesAfterWalkFrom0006(metadata: Schema, start: Schema, w: Walk)
    requires Stays(|CHAIN|, w) && Run(CHAIN, metadata, start, w).status.Fine? && MeetsOnly(CHAIN, start, 2)
    ensures Run(CHAIN, metadata, start, w).schema.Keys ==
            (if EverUndone(w, 2) then start.Keys - Elements(AUTOMATION_TABLES) else start.Keys) +
            Applied(CHAIN, Position(w)) * metadata.Keys
  {
    ChainWellFormed();
    AutomationMigration();
    TablesWhenOverlapping(CHAIN, metadata, start, w, 2);
  }

  /** Every migration of 0007-0022 can be undone, except that 0011 and 0012 need each of their
      tables in the metadata or in the start schema. */
  lemma {:induction false} UndoableMeans(metadata: Schema, start: Schema, i: nat)
    requires i < |CHAIN|
    ensures Undoable(CHAIN, metadata, start, i) <==>
            && (i == 4 ==> Elements(SECURITY_TABLES) <= metadata.Keys + start.Keys)
            && (i == 5 ==> Elements(QUALITY_TABLES) <= metadata.Keys + start.Keys)
  {
    DropsOfChain(i);
    var tables := CHAIN[i].tables;
    assert forall t :: t in Elements(tables) <==> t in tables;
    assert (Elements(tables) <= metadata.Keys + start.Keys) <==>
           forall t :: t in tables ==> t in metadata || t in start;
  }

  lemma {:induction false} DropsOfChain(i: nat)
    requires i < |CHAIN|
    ensures CHAIN[i].drop.Unconditional? <==> i == 4 || i == 5
    ensures CHAIN[4].tables == SECURITY_TABLES && CHAIN[5].tables == QUALITY_TABLES
  {
  }

  /** The start schema holds a listed table only of 0011 or 0012, and only if that migration has a
      table that neither the metadata nor the start schema knows. */
  ghost predicate OnlyStuckTables(metadata: Schema, start: Schema) {
    forall i, t :: 0 <= i < |CHAIN| && t in CHAIN[i].tables && t in start ==>
                     || (i == 4 && !(Elements(SECURITY_TABLES) <= metadata.Keys + start.Keys))
                     || (i == 5 && !(Elements(QUALITY_TABLES) <= metadata.Keys + start.Keys))
  }

  lemma {:induction false} NothingAtRiskMeans(metadata: Schema, start: Schema)
    ensures NothingAtRisk(CHAIN, metadata, start) <==> OnlyStuckTables(metadata, start)
  {
    forall i | 0 <= i < |CHAIN|
      ensures Undoable(CHAIN, metadata, start, i) <==>
              && (i == 4 ==> Elements(SECURITY_TABLES) <= metadata.Keys + start.Keys)
              && (i == 5 ==> Elements(QUALITY_TABLES) <= metadata.Keys + start.Keys)
    {
      UndoableMeans(metadata, start, i);
    }
  }

  /** Which tables exist after a walk over 0007-0022 that finishes depends only on the revision
      reached if and only if the start schema holds none of the listed tables, those of a 0011
      or 0012 that can never be undone excepted. */
  lemma {:induction false} TablesArePathIndependentIff(metadata: Schema, start: Schema)
    ensures TablesPathIndependent(CHAIN, metadata, start) <==> OnlyStuckTables(metadata, start)
  {
    ChainWellFormed();
    NothingAtRiskMeans(metadata, start);
    TablesDependOnPositionIff(CHAIN, metadata, start);
  }

  /** Any schema that 0002 has been applied to holds two tables of 0009, so what is left of it
      depends on the walk. */
  lemma {:induction false} WorkflowSchemaIsPathDependent(metadata: Schema, start: Schema)
    requires Elements(WORKFLOW_TABLES) <= start.Keys
    ensures !TablesPathIndependent(CHAIN, metadata, start) && !PathIndependent(CHAIN, metadata, start)
  {
    ChainWellFormed();
    AutomationMigration();
    SharedTables();
    var t := "automation_approvals";
    assert t in LOST;
    TableAtRisk(CHAIN, metadata, start, 2, t);
    if PathIndependent(CHAIN, metadata, start) {
      SameSchemaSameTables(CHAIN, metadata, start);
    }
  }

  // ---------------------------------------------------------------- 0001, 0002 and 0009

  /** 0001 applies exactly when none of its tables exist, and undoing it restores the schema. */
  lemma {:induction false} MultimodalRoundTrip(schema: Schema, shapes: Schema)
    requires Elements(MULTIMODAL_TABLES) <= shapes.Keys
    ensures var up := CreateEach(schema, MULTIMODAL_TABLES, shapes);
            && (up.status.Fine? <==> Elements(MULTIMODAL_TABLES) !! schema.Keys)
            && (up.status.Fine? ==> DropEach(up.schema, MULTIMODAL_DROPS) == Outcome(schema, Fine))
  {
    MultimodalLists();
    CreateThenDrop(schema, MULTIMODAL_TABLES, shapes);
  }

  /** 0002 applies exactly when none of its tables exist, and undoing it restores the schema. */
  lemma {:induction false} WorkflowRoundTrip(schema: Schema, shapes: Schema)
    requires Elements(WORKFLOW_TABLES) <= shapes.Keys
    ensures var up := CreateEach(schema, WORKFLOW_TABLES, shapes);
            && (up.status.Fine? <==> Elements(WORKFLOW_TABLES) !! schema.Keys)
            && (up.status.Fine? ==> DropChecked(up.schema, WORKFLOW_DROPS) == schema)
  {
    WorkflowLists();
    CreateThenDrop(schema, WORKFLOW_TABLES, shapes);
  }

  /** On a schema produced by 0002, applying 0009 and undoing it loses exactly two of 0002's
      tables. The downgrade of 0002 still succeeds and restores the original schema, because it
      checks for each table; without that check it would raise. */
  lemma {:induction false} AutomationLosesTwoTables(schema: Schema, shapes: Schema, metadata: Schema)
    requires Elements(WORKFLOW_TABLES) <= shapes.Keys
    requires (Elements(WORKFLOW_TABLES) + Elements(AUTOMATION_TABLES)) !! schema.Keys
    ensures var workflows := CreateEach(schema, WORKFLOW_TABLES, shapes);
            var undone := Downgrade(CHAIN[2], Upgrade(CHAIN[2], metadata, workflows.schema));
            && workflows.status.Fine?
            && undone == Outcome(workflows.schema - LOST, Fine)
            && LOST <= workflows.schema.Keys
            && DropChecked(undone.schema, WORKFLOW_DROPS) == schema
            && DropEach(undone.schema, WORKFLOW_DROPS).status.Raised?
  {
    WorkflowLists();
    SharedTables();
    AutomationMigration();
    SharedTablesAreLost(schema, WORKFLOW_TABLES, shapes, CHAIN[2], metadata, LOST);
  }

  lemma {:induction false} AutomationMigration()
    ensures CHAIN[2].tables == AUTOMATION_TABLES && CHAIN[2].columns == [] && CHAIN[2].drop.IfPresent?
    ensures Distinct(AUTOMATION_TABLES)
  {
    Family0009();
  }

  // ---------------------------------------------------------------- 0019

  /** Undoing 0019 and applying it again restores what it had built if and only if each of its
      own tables was absent or had the metadata's columns before. */
  lemma {:induction false} EcosystemReapplyIff(metadata: Schema, schema: Schema)
    ensures var up := Upgrade(CHAIN[12], metadata, schema);
            Upgrade(CHAIN[12], metadata, Downgrade(CHAIN[12], up).schema) == up <==>
            forall t :: t in MARKETPLACE_ECOSYSTEM_TABLES && t in schema ==>
                          t in metadata && schema[t] == metadata[t]
  {
    EcosystemMigration();
    forall c | c in CHAIN[12].columns
      ensures c.table !in CHAIN[12].tables
    {
      ColumnsExtendMarketplace(c);
    }
    ReapplyIff(CHAIN[12], metadata, schema);
  }

  lemma {:induction false} EcosystemMigration()
    ensures CHAIN[12].tables == MARKETPLACE_ECOSYSTEM_TABLES && CHAIN[12].columns == ECOSYSTEM_COLUMNS
    ensures CHAIN[12].drop.Swallowing? && Distinct(CHAIN[12].tables)
  {
    Family0019();
  }

  lemma {:induction false} AddedColumnsSurvive(m: Migration, columns: seq<ColumnSpec>, metadata: Schema,
                                               schema: Schema, c: ColumnSpec)
    requires m.columns == columns && m.drop.Swallowing? && Distinct(m.tables)
    requires c in columns && c.table in schema && c.table !in m.tables
    ensures var down := Downgrade(m, Upgrade(m, metadata, schema)).schema;
            && c.table in down && c.column in down[c.table]
            && (forall col :: col in schema[c.table] ==>
                                col in down[c.table] && down[c.table][col] == schema[c.table][col])
            && (forall col :: col in down[c.table] && col !in schema[c.table] ==>
                                exists d :: d in columns && d.table == c.table && d.column == col)
  {
    ColumnsSurvive(m, metadata, schema, c);
  }

  /** Undoing 0019 keeps every column it added, and no column that was there before changes. */
  lemma {:induction false} EcosystemColumnsSurvive(metadata: Schema, schema: Schema, c: ColumnSpec)
    requires c in ECOSYSTEM_COLUMNS && c.table in schema
    ensures var down := Downgrade(CHAIN[12], Upgrade(CHAIN[12], metadata, schema)).schema;
            && c.table in down && c.column in down[c.table]
            && (forall col :: col in schema[c.table] ==>
                                col in down[c.table] && down[c.table][col] == schema[c.table][col])
            && (forall col :: col in down[c.table] && col !in schema[c.table] ==>
                                exists d :: d in ECOSYSTEM_COLUMNS && d.table == c.table && d.column == col)
  {
    EcosystemMigration();
    ColumnsExtendMarketplace(c);
    AddedColumnsSurvive(CHAIN[12], ECOSYSTEM_COLUMNS, metadata, schema, c);
  }

  /** The schema after a walk over 0007-0022 that finishes, columns included, depends only on the
      revision reached if and only if its tables do and the metadata already has all the columns
      0019 adds: undoing 0019 does not take them back. */
  lemma {:induction false} SchemaIsPathIndependentIff(metadata: Schema, start: Schema)
    ensures PathIndependent(CHAIN, metadata, start) <==>
            && OnlyStuckTables(metadata, start)
            && forall c :: c in ECOSYSTEM_COLUMNS && c.table in metadata ==> c.column in metadata[c.table]
  {
    ChainWellFormed();
    NothingAtRiskMeans(metadata, start);
    UndoableMeans(metadata, start, 12);
    OnlyEcosystemAdds();
    if OnlyStuckTables(metadata, start) {
      forall c | c in ECOSYSTEM_COLUMNS
        ensures c.table !in start
      {
        MarketplaceNotStuck(metadata, start, c);
      }
    }
    OneAdderSchemaIff(CHAIN, metadata, start, 12, ECOSYSTEM_COLUMNS);
  }

  lemma {:induction false} MarketplaceNotStuck(metadata: Schema, start: Schema, c: ColumnSpec)
    requires OnlyStuckTables(metadata, start) && c in ECOSYSTEM_COLUMNS
    ensures c.table !in start
  {
    ColumnsExtendMarketplace(c);
    MarketplaceMigration();
  }

  /** When the metadata knows the tables of 0011 and 0012, so that no walk raises, no listed table
      may be in the start schema. */
  lemma {:induction false} KnownSchemaIsPathIndependentIff(metadata: Schema, start: Schema)
    requires SecurityAndQualityKnown(metadata)
    ensures TablesPathIndependent(CHAIN, metadata, start) <==> Unlisted(CHAIN, start)
    ensures PathIndependent(CHAIN, metadata, start) <==>
            && Unlisted(CHAIN, start)
            && forall c :: c in ECOSYSTEM_COLUMNS && c.table in metadata ==> c.column in metadata[c.table]
  {
    TablesArePathIndependentIff(metadata, start);
    SchemaIsPathIndependentIff(metadata, start);
    assert OnlyStuckTables(metadata, start) <==> Unlisted(CHAIN, start);
  }

  lemma {:induction false} OnlyEcosystemAdds()
    ensures OnlyAdder(CHAIN, 12, ECOSYSTEM_COLUMNS)
  {
    forall j | 0 <= j < |CHAIN|
      ensures CHAIN[j].columns == if j == 12 then ECOSYSTEM_COLUMNS else []
    {
      OnlyEcosystemAddsColumns(j);
    }
  }

  // ---------------------------------------------------------------- 0029 and 0032

  /** 0029, applied and undone, keeps `iam_sessions` as 0016 created it if and only if the metadata's
      table has none of the twelve columns. Those it has are lost. */
  lemma {:induction false} SessionsKeptIff(metadata: Schema, schema: Schema)
    requires "iam_sessions" in metadata && "iam_sessions" !in schema
    ensures var created := Upgrade(CHAIN[9], metadata, schema);
            var down := StripDown(ZERO_TRUST, Upgrade(ZERO_TRUST, metadata, created));
            var names := ColumnNames(SESSION_COLUMNS, "iam_sessions");
            && Lookup(created, "iam_sessions") == Some(metadata["iam_sessions"])
            && Lookup(down, "iam_sessions") == Some(metadata["iam_sessions"] - names)
            && (Lookup(down, "iam_sessions") == Lookup(created, "iam_sessions") <==>
                names !! metadata["iam_sessions"].Keys)
  {
    SessionsOf0016();
    CreatedThenStripped(CHAIN[9], ZERO_TRUST, metadata, schema, "iam_sessions");
  }

  lemma {:induction false} SessionsOf0016()
    ensures "iam_sessions" in CHAIN[9].tables && CHAIN[9].columns == []
    ensures "iam_sessions" !in ZERO_TRUST.tables
  {
    assert IAM_TABLES[9] == "iam_sessions";
    assert forall t :: t in ZERO_TRUST.tables ==> |t| != |"iam_sessions"|;
  }

  /** Applying 0029 again after undoing it gives `iam_sessions` back only if each of the columns it
      had before has the type that 0029 declares: a `scope` of another type does not return. */
  lemma {:induction false} ScopeChangesType(metadata: Schema, schema: Schema)
    requires "iam_sessions" in schema && "scope" in schema["iam_sessions"]
    requires schema["iam_sessions"]["scope"] != "JSON()"
    ensures var up := Upgrade(ZERO_TRUST, metadata, schema);
            var again := Upgrade(ZERO_TRUST, metadata, StripDown(ZERO_TRUST, up));
            && Lookup(again, "iam_sessions") != Lookup(up, "iam_sessions")
  {
    SessionsOf0016();
    ScopeIsAdded();
    StripReapplyIff(ZERO_TRUST, metadata, schema, "iam_sessions");
  }

  lemma {:induction false} ScopeIsAdded()
    ensures "scope" in Extra(SESSION_COLUMNS, "iam_sessions")
    ensures Extra(SESSION_COLUMNS, "iam_sessions")["scope"] == "JSON()"
  {
    assert SESSION_COLUMNS[3].column == "scope";
    assert forall j :: 0 <= j < 3 ==> |SESSION_COLUMNS[j].column| != |"scope"|;
    ExtraFirst(SESSION_COLUMNS, 3);
  }

  /** 0032, applied and undone, keeps `automation_tasks` as 0009 created it if and only if the
      metadata's table lacks `workflow_version_id`. */
  lemma {:induction false} TasksKeptIff(metadata: Schema, schema: Schema)
    requires "automation_tasks" in metadata && "automation_tasks" !in schema
    ensures var created := Upgrade(CHAIN[2], metadata, schema);
            var down := StripDown(WORKFLOW_ENGINE, Upgrade(WORKFLOW_ENGINE, metadata, created));
            && Lookup(created, "automation_tasks") == Some(metadata["automation_tasks"])
            && Lookup(down, "automation_tasks") == Some(metadata["automation_tasks"] - {"workflow_version_id"})
            && (Lookup(down, "automation_tasks") == Lookup(created, "automation_tasks") <==>
                "workflow_version_id" !in metadata["automation_tasks"])
  {
    TasksOf0009();
    CreatedThenStripped(CHAIN[2], WORKFLOW_ENGINE, metadata, schema, "automation_tasks");
  }

  lemma {:induction false} TasksOf0009()
    ensures "automation_tasks" in CHAIN[2].tables && CHAIN[2].columns == []
    ensures "automation_tasks" !in WORKFLOW_ENGINE.tables
    ensures ColumnNames(WORKFLOW_ENGINE.columns, "automation_tasks") == {"workflow_version_id"}
  {
    AutomationMigration();
    assert AUTOMATION_TABLES[0] == "automation_tasks";
    assert forall t :: t in WORKFLOW_ENGINE.tables ==> t[0] == 'w';
    OneColumnName(ColumnSpec("automation_tasks", "workflow_version_id", "Uuid()"));
  }

  lemma {:induction false} OneColumnName(c: ColumnSpec)
    ensures ColumnNames([c], c.table) == {c.column}
  {
    assert c in [c];
  }

  // ---------------------------------------------------------------- the branch 0004_sre_rename_tables

  lemma {:induction false} SreNameShape(t: string)
    requires t in BranchNames(SRE_RENAMES)
    ensures |t| > 1 && t[0] == 's' && t[1] == 'r'
  {
    SreNamesStart();
    var k :| 0 <= k < |SRE_RENAMES| && (t == SRE_RENAMES[k].source || t == SRE_RENAMES[k].target);
  }

  lemma {:induction false} SreNamesStart()
    ensures forall k :: 0 <= k < |SRE_RENAMES| ==>
              && |SRE_RENAMES[k].source| > 1 && SRE_RENAMES[k].source[0] == 's' && SRE_RENAMES[k].source[1] == 'r'
              && |SRE_RENAMES[k].target| > 1 && SRE_RENAMES[k].target[0] == 's' && SRE_RENAMES[k].target[1] == 'r'
  {
  }

  lemma {:induction false} OutsideBranch(t: string)
    requires Family(t) == 11 ==> |t| > 1 && t[1] == 'u'
    ensures t !in BranchNames(SRE_RENAMES)
  {
    if t in BranchNames(SRE_RENAMES) {
      SreNameShape(t);
    }
  }

  lemma {:induction false} ChainAvoidsBranch(i: nat)
    requires i < |CHAIN|
    ensures Avoids(CHAIN[i], BranchNames(SRE_RENAMES))
  {
    ChainTables(i);
    forall t | t in CHAIN[i].tables
      ensures t !in BranchNames(SRE_RENAMES)
    {
      SupportIsEleventh(i, t);
      OutsideBranch(t);
    }
    forall c | c in CHAIN[i].columns
      ensures c.table !in BranchNames(SRE_RENAMES)
    {
      OnlyEcosystemAddsColumns(i);
      ColumnsExtendMarketplace(c);
      Family0008();
      OutsideBranch(c.table);
    }
  }

  lemma {:induction false} SupportIsEleventh(i: nat, t: string)
    requires i < |CHAIN| && t in CHAIN[i].tables
    ensures i == 11 ==> |t| > 1 && t[1] == 'u'
  {
    if i == 11 {
      SupportMigration();
      SupportTablesStart();
    }
  }

  lemma {:induction false} SupportMigration()
    ensures CHAIN[11].tables == SUPPORT_TABLES
  {
  }

  lemma {:induction false} SupportTablesStart()
    ensures forall t :: t in SUPPORT_TABLES ==> |t| > 1 && t[1] == 'u'
  {
  }

  /** Over 0007-0022 and the branch 0004_sre_rename_tables: two runs with the same main-line steps
      and the same applications and undos of the branch finish alike and leave the same schema,
      wherever in the walk the branch is applied or undone. */
  lemma {:induction false} SreBranchInterleaves(metadata: Schema, start: Schema, m1: Mixed, m2: Mixed)
    requires Stays(|CHAIN|, ChainPart(m1)) && Stays(|CHAIN|, ChainPart(m2))
    requires ChainPart(m1) == ChainPart(m2) && BranchPart(m1) == BranchPart(m2)
    ensures var r1 := MixedRun(CHAIN, metadata, SRE_RENAMES, start, m1);
            var r2 := MixedRun(CHAIN, metadata, SRE_RENAMES, start, m2);
            && (r1.status.Fine? <==> r2.status.Fine?)
            && (r1.status.Fine? ==> r1.schema == r2.schema)
  {
    BranchIsBeside();
    InterleavingIrrelevant(CHAIN, metadata, SRE_RENAMES, BranchNames(SRE_RENAMES), start, m1, m2);
  }

  const OLD_NAMES := {"sre_service_dependencies", "sre_maintenance_windows", "sre_capacity_metrics", "sre_backup_jobs"}
  const NEW_NAMES := {"sre_dependencies", "sre_maintenance", "sre_capacity", "sre_backups"}

  /** The branch applied once in a walk over 0007-0022: the run finishes exactly when the walk alone
      does, the four old tables are there at the start and the four new names are free. Then the
      new names hold the old tables and no old name is left. */
  lemma {:induction false} SreBranchApplied(metadata: Schema, start: Schema, m: Mixed)
    requires Stays(|CHAIN|, ChainPart(m)) && BranchPart(m) == [true]
    ensures var mixed := MixedRun(CHAIN, metadata, SRE_RENAMES, start, m);
            var alone := Run(CHAIN, metadata, start, ChainPart(m));
            && (mixed.status.Fine? <==> alone.status.Fine? && OLD_NAMES <= start.Keys && NEW_NAMES !! start.Keys)
            && (mixed.status.Fine? ==>
                  && OLD_NAMES !! mixed.schema.Keys
                  && Lookup(mixed.schema, "sre_dependencies") == Lookup(start, "sre_service_dependencies")
                  && Lookup(mixed.schema, "sre_maintenance") == Lookup(start, "sre_maintenance_windows")
                  && Lookup(mixed.schema, "sre_capacity") == Lookup(start, "sre_capacity_metrics")
                  && Lookup(mixed.schema, "sre_backups") == Lookup(start, "sre_backup_jobs"))
  {
    BranchIsBeside();
    SreApplicableMeans(start);
    AppliedOnce(CHAIN, metadata, SRE_RENAMES, start, m);
    var mixed := MixedRun(CHAIN, metadata, SRE_RENAMES, start, m);
    if mixed.status.Fine? {
      SreMoved(start, mixed.schema);
    }
  }

  /** Applied and later undone, the branch leaves no trace in a run that finishes. */
  lemma {:induction false} SreBranchUndone(metadata: Schema, start: Schema, m: Mixed)
    requires Stays(|CHAIN|, ChainPart(m)) && BranchPart(m) == [true, false]
    ensures var mixed := MixedRun(CHAIN, metadata, SRE_RENAMES, start, m);
            var alone := Run(CHAIN, metadata, start, ChainPart(m));
            && (mixed.status.Fine? <==> alone.status.Fine? && OLD_NAMES <= start.Keys && NEW_NAMES !! start.Keys)
            && (mixed.status.Fine? ==> mixed.schema == alone.schema)
  {
    BranchIsBeside();
    SreApplicableMeans(start);
    AppliedAndUndone(CHAIN, metadata, SRE_RENAMES, start, m);
  }

  lemma {:induction false} BranchIsBeside()
    ensures WellFormed(CHAIN) && Separate(SRE_RENAMES)
    ensures forall i :: 0 <= i < |CHAIN| ==> Avoids(CHAIN[i], BranchNames(SRE_RENAMES))
  {
    ChainWellFormed();
    SreRenamesAreSeparate();
    forall i | 0 <= i < |CHAIN|
      ensures Avoids(CHAIN[i], BranchNames(SRE_RENAMES))
    {
      ChainAvoidsBranch(i);
    }
  }

  lemma {:induction false} SrePairs()
    ensures |SRE_RENAMES| == 4
    ensures SRE_RENAMES[0] == Rename("sre_service_dependencies", "sre_dependencies")
    ensures SRE_RENAMES[1] == Rename("sre_maintenance_windows", "sre_maintenance")
    ensures SRE_RENAMES[2] == Rename("sre_capacity_metrics", "sre_capacity")
    ensures SRE_RENAMES[3] == Rename("sre_backup_jobs", "sre_backups")
  {
  }

  lemma {:induction false} SreApplicableMeans(start: Schema)
    ensures AllApplicable(start, SRE_RENAMES) <==> OLD_NAMES <= start.Keys && NEW_NAMES !! start.Keys
  {
    SrePairs();
  }

  lemma {:induction false} SreMoved(start: Schema, after: Schema)
    requires forall k :: 0 <= k < |SRE_RENAMES| ==>
               && SRE_RENAMES[k].source !in after && SRE_RENAMES[k].source in start
               && Lookup(after, SRE_RENAMES[k].target) == Some(start[SRE_RENAMES[k].source])
    ensures OLD_NAMES !! after.Keys
    ensures Lookup(after, "sre_dependencies") == Lookup(start, "sre_service_dependencies")
    ensures Lookup(after, "sre_maintenance") == Lookup(start, "sre_maintenance_windows")
    ensures Lookup(after, "sre_capacity") == Lookup(start, "sre_capacity_metrics")
    ensures Lookup(after, "sre_backups") == Lookup(start, "sre_backup_jobs")
  {
    SrePairs();
    assert forall k :: 0 <= k < 4 ==> SRE_RENAMES[k].source !in after;
  }
}
