/** The migrations whose downgrade also takes columns back: 0029, which widens `iam_sessions` of
    0016, and 0032, which widens `automation_tasks` of 0009. A column is dropped whether the
    migration added it or it was there before. */
module ColumnDrops {
  import opened Sequences
  import opened Schemas
  import opened Migrations

  const SESSION_COLUMNS := [
    ColumnSpec("iam_sessions", "session_id_hash", "String(128)"),
    ColumnSpec("iam_sessions", "identity_id", "String(64)"),
    ColumnSpec("iam_sessions", "tenant_id", "Uuid()"),
    ColumnSpec("iam_sessions", "scope", "JSON()"),
    ColumnSpec("iam_sessions", "status", "String(16)"),
    ColumnSpec("iam_sessions", "device_context_hash", "String(128)"),
    ColumnSpec("iam_sessions", "absolute_expires_at", "DateTime()"),
    ColumnSpec("iam_sessions", "last_seen_at", "DateTime()"),
    ColumnSpec("iam_sessions", "revocation_version", "Integer()"),
    ColumnSpec("iam_sessions", "risk_state", "String(16)"),
    ColumnSpec("iam_sessions", "policy_version", "String(32)"),
    ColumnSpec("iam_sessions", "region", "String(64)")
  ]

  const ZERO_TRUST := Migration("0029_zero_trust",
    ["iam_credentials_metadata", "iam_privileged_access", "iam_identity_risk_snapshots"],
    Swallowing, true, SESSION_COLUMNS)

  const WORKFLOW_ENGINE := Migration("0032_workflow",
    ["workflow_definitions", "workflow_versions", "workflow_runs", "workflow_step_runs",
     "workflow_schedules", "workflow_approvals", "workflow_checkpoints", "workflow_compensations"],
    Swallowing, true, [ColumnSpec("automation_tasks", "workflow_version_id", "Uuid()")])

  /** The downgrade: drop the listed tables, then the listed columns, last first. */
  function StripDown(m: Migration, schema: Schema): Schema {
    StripColumns(schema - Elements(Reverse(m.tables)), Reverse(m.columns))
  }

  method RunStripDown(db: Database, m: Migration)
    modifies db
    ensures db.tables == StripDown(m, old(db.tables))
  {
    db.DropSwallowing(Reverse(m.tables));
    db.DropColumns(Reverse(m.columns));
  }

  lemma {:induction false} ReverseNamesSame(columns: seq<ColumnSpec>, t: string)
    ensures ColumnNames(Reverse(columns), t) == ColumnNames(columns, t)
  {
    ReverseKeepsElements(columns);
    assert forall c :: c in columns <==> c in Elements(columns);
    assert forall c :: c in Reverse(columns) <==> c in Elements(Reverse(columns));
  }

  lemma {:induction false} StripDownLookup(m: Migration, schema: Schema, t: string)
    ensures Lookup(StripDown(m, schema), t) ==
            if t in schema && t !in m.tables then Some(schema[t] - ColumnNames(m.columns, t)) else None
  {
    ReverseKeepsElements(m.tables);
    ReverseNamesSame(m.columns, t);
    assert t in Elements(m.tables) <==> t in m.tables;
  }

  lemma {:induction false} WidenedThenStripped(columns: seq<ColumnSpec>, t: string, shape: Table)
    ensures Widened(columns, t, shape) - ColumnNames(columns, t) == shape - ColumnNames(columns, t)
    ensures Extra(columns, t).Keys == ColumnNames(columns, t)
  {
    ExtraKeys(columns, t);
    forall c
      ensures c in Extra(columns, t) <==> c in ColumnNames(columns, t)
    {
      if c in ColumnNames(columns, t) {
        var d :| d in columns && d.table == t && d.column == c;
        var k :| 0 <= k < |columns| && columns[k] == d;
      }
    }
  }

  /** What up and down leaves of one table: an unlisted table of the start loses every listed
      column, whether it was added or not. */
  lemma {:induction false} StrippedLookup(m: Migration, metadata: Schema, schema: Schema, t: string)
    ensures Lookup(StripDown(m, Upgrade(m, metadata, schema)), t) ==
            if t in schema && t !in m.tables then Some(schema[t] - ColumnNames(m.columns, t)) else None
  {
    var up := Upgrade(m, metadata, schema);
    UpgradeLookup(m, metadata, schema, t);
    StripDownLookup(m, up, t);
    if t in schema {
      WidenedThenStripped(m.columns, t, schema[t]);
    }
  }

  /** Up and down restores the schema if and only if it held none of the listed tables and none of
      the added columns: where the other migrations need each column to be there, this needs it to
      be absent. */
  lemma {:induction false} StripRoundTripIff(m: Migration, metadata: Schema, schema: Schema)
    ensures StripDown(m, Upgrade(m, metadata, schema)) == schema <==>
            && (forall t :: t in m.tables ==> t !in schema)
            && (forall c :: c in m.columns && c.table in schema ==> c.column !in schema[c.table])
  {
    var down := StripDown(m, Upgrade(m, metadata, schema));
    forall t
      ensures Lookup(down, t) == Lookup(schema, t) <==> t in schema ==> Spared(m, schema, t)
    {
      StrippedLookup(m, metadata, schema, t);
      if t in schema {
        NothingTaken(schema[t], ColumnNames(m.columns, t));
      }
    }
    if down == schema {
      forall c | c in m.columns && c.table in schema
        ensures c.column !in schema[c.table]
      {
        assert Lookup(down, c.table) == Lookup(schema, c.table);
        assert c.column in ColumnNames(m.columns, c.table);
      }
      forall t | t in m.tables
        ensures t !in schema
      {
        assert Lookup(down, t) == Lookup(schema, t);
      }
    }
    if (forall t :: t in m.tables ==> t !in schema) &&
       (forall c :: c in m.columns && c.table in schema ==> c.column !in schema[c.table]) {
      assert forall t :: t in schema ==> Spared(m, schema, t);
      SameLookups(down, schema);
    }
  }

  lemma {:induction false} NothingTaken(shape: Table, names: set<string>)
    ensures shape - names == shape <==> names !! shape.Keys
  {
    if c :| c in names && c in shape {
      assert c !in shape - names;
    }
  }

  /** The table is not listed and has none of the columns. */
  ghost predicate Spared(m: Migration, schema: Schema, t: string)
    requires t in schema
  {
    t !in m.tables && ColumnNames(m.columns, t) !! schema[t].Keys
  }

  /** Going down and up again restores an unlisted table of the upgraded schema if and only if each
      listed column it had before has the type that the migration declares. */
  lemma {:induction false} StripReapplyIff(m: Migration, metadata: Schema, schema: Schema, t: string)
    requires t in schema && t !in m.tables
    ensures var up := Upgrade(m, metadata, schema);
            Lookup(Upgrade(m, metadata, StripDown(m, up)), t) == Lookup(up, t) <==>
            forall c :: c in Extra(m.columns, t) && c in schema[t] ==> schema[t][c] == Extra(m.columns, t)[c]
  {
    var up := Upgrade(m, metadata, schema);
    var down := StripDown(m, up);
    var extra, names := Extra(m.columns, t), ColumnNames(m.columns, t);
    UpgradeLookup(m, metadata, schema, t);
    StrippedLookup(m, metadata, schema, t);
    UpgradeLookup(m, metadata, down, t);
    WidenedThenStripped(m.columns, t, schema[t]);
    ReaddedIff(extra, schema[t]);
  }

  lemma {:induction false} ReaddedIff(extra: Table, shape: Table)
    ensures extra + (shape - extra.Keys) == extra + shape <==>
            forall c :: c in extra && c in shape ==> shape[c] == extra[c]
  {
    var before, after := extra + shape, extra + (shape - extra.Keys);
    forall c | c in extra && c in shape
      ensures before[c] == shape[c] && after[c] == extra[c]
    {
    }
  }

  /** A table that an earlier migration creates from the metadata, after the later one is applied
      and undone: it keeps the shape it was created with if and only if the metadata's shape has
      none of the columns the later one adds. */
  lemma {:induction false} CreatedThenStripped(creator: Migration, m: Migration, metadata: Schema, schema: Schema,
                                               t: string)
    requires t in creator.tables && t in metadata && t !in schema && t !in m.tables
    requires forall c :: c in creator.columns ==> c.table != t
    ensures var created := Upgrade(creator, metadata, schema);
            var down := StripDown(m, Upgrade(m, metadata, created));
            && Lookup(created, t) == Some(metadata[t])
            && Lookup(down, t) == Some(metadata[t] - ColumnNames(m.columns, t))
            && (Lookup(down, t) == Lookup(created, t) <==> ColumnNames(m.columns, t) !! metadata[t].Keys)
  {
    var created := Upgrade(creator, metadata, schema);
    UpgradeLookup(creator, metadata, schema, t);
    NothingToAdd(creator.columns, t, metadata[t]);
    StrippedLookup(m, metadata, created, t);
    NothingTaken(metadata[t], ColumnNames(m.columns, t));
  }
}
