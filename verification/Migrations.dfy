/** One migration of the 0007-0022 family: an upgrade that creates its listed tables from the
    metadata and adds missing columns, and a downgrade that drops the listed tables in one of
    three ways. */
module Migrations {
  import opened Schemas
  import opened Sequences

  datatype DropMode = IfPresent | Unconditional | Swallowing

  datatype Migration = Migration(
    revision: string,
    tables: seq<string>,
    drop: DropMode,
    backwards: bool,
    columns: seq<ColumnSpec>)

  function DropOrder(m: Migration): seq<string> {
    if m.backwards then Reverse(m.tables) else m.tables
  }

  function Upgrade(m: Migration, metadata: Schema, schema: Schema): Schema {
    AddColumns(CreateMissing(schema, m.tables, metadata), m.columns)
  }

  function Downgrade(m: Migration, schema: Schema): Outcome {
    match m.drop
    case IfPresent => DropExisting(schema, schema.Keys, DropOrder(m))
    case Unconditional => DropEach(schema, DropOrder(m))
    case Swallowing => Outcome(schema - Elements(DropOrder(m)), Fine)
  }

  method RunUpgrade(db: Database, m: Migration, metadata: Schema)
    modifies db
    ensures db.tables == Upgrade(m, metadata, old(db.tables))
  {
    db.CreateFromMetadata(m.tables, metadata);
    db.AddMissingColumns(m.columns);
  }

  method RunDowngrade(db: Database, m: Migration) returns (status: Status)
    modifies db
    ensures Outcome(db.tables, status) == Downgrade(m, old(db.tables))
  {
    match m.drop {
      case IfPresent => status := db.DropIfPresent(DropOrder(m));
      case Unconditional => status := db.DropInOrder(DropOrder(m));
      case Swallowing =>
        db.DropSwallowing(DropOrder(m));
        status := Fine;
    }
  }

  /** All three drop disciplines remove the listed tables and nothing else whenever they
      finish; only the unconditional one can stop early, exactly on a missing table. */
  lemma {:induction false} DowngradeExact(m: Migration, schema: Schema)
    requires Distinct(m.tables)
    ensures var down := Downgrade(m, schema);
            && (down.status.Fine? <==> (m.drop.Unconditional? ==> Elements(m.tables) <= schema.Keys))
            && (down.status.Fine? ==> down.schema == schema - Elements(m.tables))
  {
    ReverseKeepsElements(m.tables);
    match m.drop {
      case IfPresent => DropExistingExact(schema, schema.Keys, DropOrder(m));
      case Unconditional => DropEachExact(schema, DropOrder(m));
      case Swallowing =>
    }
  }

  /** An unconditional downgrade that meets a missing table raises on it and keeps the tables that
      were to be dropped after it: the later ones of the list, or the earlier ones when it runs
      backwards. */
  lemma {:induction false} DowngradeStops(m: Migration, schema: Schema, k: nat)
    requires m.drop.Unconditional? && Distinct(m.tables) && k < |m.tables| && m.tables[k] !in schema
    requires if m.backwards then Elements(m.tables[k + 1..]) <= schema.Keys else Elements(m.tables[..k]) <= schema.Keys
    ensures Downgrade(m, schema) ==
            Outcome(schema - Elements(if m.backwards then m.tables[k + 1..] else m.tables[..k]),
                    Raised(NoSuchTable(m.tables[k])))
  {
    if m.backwards {
      var order, at := Reverse(m.tables), |m.tables| - 1 - k;
      ReverseKeepsElements(m.tables);
      ReversedPart(m.tables, k);
      assert Distinct(order[..at]);
      DropEachStops(schema, order, at);
    } else {
      DropEachStops(schema, m.tables, k);
    }
  }

  lemma {:induction false} ReversedPart(names: seq<string>, k: nat)
    requires k < |names|
    ensures Elements(Reverse(names)[..|names| - 1 - k]) == Elements(names[k + 1..])
  {
    var front, back := Reverse(names)[..|names| - 1 - k], names[k + 1..];
    forall i | 0 <= i < |front|
      ensures front[i] == back[|back| - 1 - i]
    {
    }
    forall t
      ensures t in front <==> t in back
    {
      if i :| 0 <= i < |back| && back[i] == t {
        assert front[|back| - 1 - i] == t;
      }
    }
  }

  lemma {:induction false} DowngradeLookup(m: Migration, schema: Schema, t: string)
    requires Distinct(m.tables) && Downgrade(m, schema).status.Fine?
    ensures Lookup(Downgrade(m, schema).schema, t) ==
            if t in m.tables then None else Lookup(schema, t)
  {
    DowngradeExact(m, schema);
    assert t in Elements(m.tables) <==> t in m.tables;
  }

  /** What one upgrade does to one table. */
  lemma {:induction false} UpgradeLookup(m: Migration, metadata: Schema, schema: Schema, t: string)
    ensures Lookup(Upgrade(m, metadata, schema), t) ==
            if t in schema then Some(Widened(m.columns, t, schema[t]))
            else if t in m.tables && t in metadata then Some(Widened(m.columns, t, metadata[t]))
            else None
  {
  }

  /** Going up and straight down again restores the schema exactly when the schema held none
      of the listed tables and every added column was already there: downgrades drop tables
      but never take a column back. */
  lemma {:induction false} RoundTripIff(m: Migration, metadata: Schema, schema: Schema)
    requires Distinct(m.tables)
    requires m.drop.Unconditional? ==> Elements(m.tables) <= metadata.Keys + schema.Keys
    ensures Downgrade(m, Upgrade(m, metadata, schema)).status.Fine?
    ensures Downgrade(m, Upgrade(m, metadata, schema)).schema == schema <==>
            && (forall t :: t in m.tables ==> t !in schema)
            && (forall c :: c in m.columns && c.table in schema ==> c.column in schema[c.table])
    ensures Downgrade(m, Upgrade(m, metadata, schema)).schema ==
            AddColumns(schema, m.columns) - Elements(m.tables)
  {
    var up := Upgrade(m, metadata, schema);
    forall t | t in m.tables && m.drop.Unconditional?
      ensures t in up
    {
      assert t in Elements(m.tables);
      UpgradeLookup(m, metadata, schema, t);
    }
    DowngradeExact(m, up);
    var down := up - Elements(m.tables);
    forall t
      ensures Lookup(down, t) ==
              if t in schema && t !in m.tables then Some(Widened(m.columns, t, schema[t])) else None
    {
      UpgradeLookup(m, metadata, schema, t);
    }
    SameLookups(down, AddColumns(schema, m.columns) - Elements(m.tables));
    if down == schema {
      forall c | c in m.columns && c.table in schema
        ensures c.column in schema[c.table]
      {
        assert c.column in Widened(m.columns, c.table, schema[c.table]) by {
          var k :| 0 <= k < |m.columns| && m.columns[k] == c;
          ExtraKeys(m.columns, c.table);
        }
        assert Lookup(down, c.table) == Some(schema[c.table]);
      }
      forall t | t in m.tables
        ensures t !in schema
      {
        assert Lookup(down, t) == None;
      }
    }
    if (forall t :: t in m.tables ==> t !in schema) &&
       (forall c :: c in m.columns && c.table in schema ==> c.column in schema[c.table]) {
      forall t
        ensures Lookup(down, t) == Lookup(schema, t)
      {
        if t in schema {
          NothingToAdd(m.columns, t, schema[t]);
        }
      }
      SameLookups(down, schema);
    }
  }

  lemma {:induction false} NothingToAdd(columns: seq<ColumnSpec>, t: string, shape: Table)
    requires forall c :: c in columns && c.table == t ==> c.column in shape
    ensures Widened(columns, t, shape) == shape
  {
    ExtraKeys(columns, t);
  }

  /** Undoing a migration and applying it again restores what it had built exactly when every
      listed table that predates it has the metadata's columns. */
  lemma {:induction false} ReapplyIff(m: Migration, metadata: Schema, schema: Schema)
    requires Distinct(m.tables)
    requires m.drop.Unconditional? ==> Elements(m.tables) <= metadata.Keys + schema.Keys
    requires forall c :: c in m.columns ==> c.table !in m.tables
    ensures var up := Upgrade(m, metadata, schema);
            Upgrade(m, metadata, Downgrade(m, up).schema) == up <==>
            forall t :: t in m.tables && t in schema ==> t in metadata && schema[t] == metadata[t]
  {
    var up := Upgrade(m, metadata, schema);
    RoundTripIff(m, metadata, schema);
    var down := Downgrade(m, up).schema;
    var again := Upgrade(m, metadata, down);
    forall t
      ensures t in m.tables ==>
                Lookup(up, t) == if t in schema then Some(schema[t]) else Lookup(metadata, t)
      ensures t in m.tables ==> Lookup(again, t) == Lookup(metadata, t)
      ensures t !in m.tables ==> Lookup(again, t) == Lookup(up, t)
    {
      UpgradeLookup(m, metadata, schema, t);
      UpgradeLookup(m, metadata, down, t);
      if t in m.tables {
        assert t in schema ==> Widened(m.columns, t, schema[t]) == schema[t] by {
          if t in schema { NothingToAdd(m.columns, t, schema[t]); }
        }
        if t in metadata { NothingToAdd(m.columns, t, metadata[t]); }
      } else if t in schema {
        assert Lookup(down, t) == Some(Widened(m.columns, t, schema[t]));
        NothingToAddTwice(m.columns, t, schema[t]);
      }
    }
    if forall t :: t in m.tables && t in schema ==> t in metadata && schema[t] == metadata[t] {
      SameLookups(again, up);
    } else {
      var t :| t in m.tables && t in schema && !(t in metadata && schema[t] == metadata[t]);
      assert Lookup(again, t) != Lookup(up, t);
    }
  }

  lemma {:induction false} NothingToAddTwice(columns: seq<ColumnSpec>, t: string, shape: Table)
    ensures Widened(columns, t, Widened(columns, t, shape)) == Widened(columns, t, shape)
  {
  }

  /** Undoing a migration keeps every column it added to a table it does not list: the columns
      that were there keep their types, and the new ones are the added ones. */
  lemma {:induction false} ColumnsSurvive(m: Migration, metadata: Schema, schema: Schema, c: ColumnSpec)
    requires Distinct(m.tables) && Downgrade(m, Upgrade(m, metadata, schema)).status.Fine?
    requires c in m.columns && c.table in schema && c.table !in m.tables
    ensures var down := Downgrade(m, Upgrade(m, metadata, schema)).schema;
            && c.table in down && c.column in down[c.table]
            && (forall col :: col in schema[c.table] ==>
                                col in down[c.table] && down[c.table][col] == schema[c.table][col])
            && (forall col :: col in down[c.table] && col !in schema[c.table] ==>
                                exists d :: d in m.columns && d.table == c.table && d.column == col)
  {
    DowngradeExact(m, Upgrade(m, metadata, schema));
    forall t | t in Elements(m.tables) && m.drop.Unconditional?
      ensures t in metadata.Keys + schema.Keys
    {
      UpgradeLookup(m, metadata, schema, t);
    }
    RoundTripIff(m, metadata, schema);
    ExtraKeys(m.columns, c.table);
    var k :| 0 <= k < |m.columns| && m.columns[k] == c;
    assert c.column in Extra(m.columns, c.table);
    assert c.table in AddColumns(schema, m.columns) && c.table !in Elements(m.tables);
  }

  /** A guarded migration `m` applied to and undone on a schema produced by earlier creates
      takes the tables the two lists share with it. The earlier migration's guarded downgrade
      still succeeds and restores the original schema; an unconditional one would raise. */
  lemma {:induction false} SharedTablesAreLost(schema: Schema, names: seq<string>, shapes: Schema, m: Migration,
                                               metadata: Schema, lost: set<string>)
    requires Elements(names) <= shapes.Keys && Distinct(names)
    requires m.drop.IfPresent? && Distinct(m.tables) && m.columns == []
    requires (Elements(names) + Elements(m.tables)) !! schema.Keys
    requires lost == Elements(names) * Elements(m.tables) && lost != {}
    ensures var created := CreateEach(schema, names, shapes);
            var undone := Downgrade(m, Upgrade(m, metadata, created.schema));
            && created.status.Fine?
            && undone == Outcome(created.schema - lost, Fine)
            && lost <= created.schema.Keys
            && DropChecked(undone.schema, Reverse(names)) == schema
            && DropEach(undone.schema, Reverse(names)).status.Raised?
  {
    CreateThenDrop(schema, names, shapes);
    var created := CreateEach(schema, names, shapes).schema;
    OverlapIsDropped(created, m, metadata, lost);
    RemainderDrops(schema, created, Reverse(names), names, lost);
  }

  lemma {:induction false} OverlapIsDropped(created: Schema, m: Migration, metadata: Schema, lost: set<string>)
    requires m.drop.IfPresent? && Distinct(m.tables) && m.columns == []
    requires created.Keys * Elements(m.tables) == lost
    ensures Downgrade(m, Upgrade(m, metadata, created)) == Outcome(created - lost, Fine)
  {
    RoundTripIff(m, metadata, created);
    NothingAdded(created);
    assert created - Elements(m.tables) == created - lost;
  }

  lemma {:induction false} NothingAdded(schema: Schema)
    ensures AddColumns(schema, []) == schema
  {
    assert forall t | t in schema :: Widened([], t, schema[t]) == schema[t];
  }

  lemma {:induction false} RemainderDrops(schema: Schema, created: Schema, drops: seq<string>, names: seq<string>,
                                          lost: set<string>)
    requires drops == Reverse(names) && Distinct(names) && lost <= Elements(names) && lost != {}
    requires created.Keys == schema.Keys + Elements(names) && created - Elements(names) == schema
    ensures DropChecked(created - lost, drops) == schema
    ensures DropEach(created - lost, drops).status.Raised?
  {
    var left := created - lost;
    ReverseKeepsElements(names);
    DropCheckedExact(left, drops);
    DropEachExact(left, drops);
    assert left - Elements(names) == created - Elements(names);
    var t :| t in lost;
    assert t in Elements(drops) && t !in left;
  }
}
