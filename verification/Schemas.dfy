/** The database schema that the migrations change, and the operations they are made of.

    A schema maps a table name to its columns; a table maps a column name to its type.
    Each operation exists twice: as a method of class `Database`, written as the loop the
    migration runs, and as a function on schemas that says what the loop leaves behind. */
module Schemas {
  import opened Sequences

  type Table = map<string, string>
  type Schema = map<string, Table>

  datatype Option<+T> = None | Some(value: T)

  /** The errors a database raises for an unconditional statement. */
  datatype DbError =
    | TableExists(table: string)
    | NoSuchTable(table: string)

  datatype Status = Fine | Raised(error: DbError)

  /** The schema a run of statements leaves behind, and whether it finished. */
  datatype Outcome = Outcome(schema: Schema, status: Status)

  datatype ColumnSpec = ColumnSpec(table: string, column: string, sqlType: string)

  datatype Rename = Rename(source: string, target: string)

  function Lookup(schema: Schema, t: string): Option<Table> {
    if t in schema then Some(schema[t]) else None
  }

  lemma {:induction false} SameLookups(s1: Schema, s2: Schema)
    requires forall t :: Lookup(s1, t) == Lookup(s2, t)
    ensures s1 == s2
  {
    forall t
      ensures t in s1 <==> t in s2
      ensures t in s1 ==> s1[t] == s2[t]
    {
      assert Lookup(s1, t) == Lookup(s2, t);
    }
  }

  // ---------------------------------------------------------------- creating

  /** `metadata.create_all(tables, checkfirst=True)`: every listed table that the metadata
      knows and the database lacks. */
  function CreateMissing(schema: Schema, names: seq<string>, metadata: Schema): Schema {
    schema + map t | t in names && t in metadata && t !in schema :: metadata[t]
  }

  /** A sequence of unconditional creates; it stops at the first table that exists. */
  function CreateEach(schema: Schema, names: seq<string>, shapes: Schema): Outcome
    requires Elements(names) <= shapes.Keys
    decreases |names|
  {
    if names == [] then Outcome(schema, Fine)
    else
      assert names[0] in Elements(names);
      if names[0] in schema then Outcome(schema, Raised(TableExists(names[0])))
      else CreateEach(schema[names[0] := shapes[names[0]]], names[1..], shapes)
  }

  lemma {:induction false} CreatedCons(schema: Schema, names: seq<string>, shapes: Schema)
    requires names != [] && Elements(names) <= shapes.Keys
    ensures names[0] in shapes && forall t :: t in names[1..] ==> t in shapes
    ensures schema[names[0] := shapes[names[0]]] + (map t | t in names[1..] :: shapes[t]) ==
            schema + map t | t in names :: shapes[t]
  {
  }

  lemma {:induction false} CreateEachAdds(schema: Schema, names: seq<string>, shapes: Schema)
    requires Elements(names) <= shapes.Keys && Distinct(names) && Elements(names) !! schema.Keys
    ensures CreateEach(schema, names, shapes) == Outcome(schema + map t | t in names :: shapes[t], Fine)
    decreases |names|
  {
    if names != [] {
      var rest := names[1..];
      assert names[0] in Elements(names) && Elements(names) == {names[0]} + Elements(rest);
      assert forall j :: 0 <= j < |rest| ==> rest[j] == names[j + 1];
      CreatedCons(schema, names, shapes);
      CreateEachAdds(schema[names[0] := shapes[names[0]]], rest, shapes);
    }
  }

  lemma {:induction false} CreateEachSucceeded(schema: Schema, names: seq<string>, shapes: Schema)
    requires Elements(names) <= shapes.Keys && CreateEach(schema, names, shapes).status.Fine?
    ensures Distinct(names) && Elements(names) !! schema.Keys
    decreases |names|
  {
    if names != [] {
      var rest := names[1..];
      assert names[0] in Elements(names) && Elements(names) == {names[0]} + Elements(rest);
      CreateEachSucceeded(schema[names[0] := shapes[names[0]]], rest, shapes);
      assert names[0] !in Elements(rest);
      assert forall j :: 0 <= j < |rest| ==> names[j + 1] == rest[j] && rest[j] in Elements(rest);
    }
  }

  /** Unconditional creates finish exactly when the names are distinct and all new, and then add
      exactly these tables. */
  lemma {:induction false} CreateEachExact(schema: Schema, names: seq<string>, shapes: Schema)
    requires Elements(names) <= shapes.Keys
    ensures CreateEach(schema, names, shapes).status.Fine? <==>
            Distinct(names) && Elements(names) !! schema.Keys
    ensures CreateEach(schema, names, shapes).status.Fine? ==>
              CreateEach(schema, names, shapes).schema == schema + map t | t in names :: shapes[t]
  {
    if CreateEach(schema, names, shapes).status.Fine? {
      CreateEachSucceeded(schema, names, shapes);
    }
    if Distinct(names) && Elements(names) !! schema.Keys {
      CreateEachAdds(schema, names, shapes);
    }
  }

  lemma {:induction false} CreateMissingSnoc(schema: Schema, names: seq<string>, name: string, metadata: Schema)
    ensures var before := CreateMissing(schema, names, metadata);
            CreateMissing(schema, names + [name], metadata) ==
            if name in metadata && name !in before then before[name := metadata[name]] else before
  {
    var before := CreateMissing(schema, names, metadata);
    var after := CreateMissing(schema, names + [name], metadata);
    assert forall t :: t in names + [name] <==> t in names || t == name;
    assert forall t :: t in after <==> t in before || (t == name && name in metadata);
  }

  // ---------------------------------------------------------------- dropping

  /** Unconditional drops in the given order; they stop at the first table that is missing. */
  function DropEach(schema: Schema, names: seq<string>): Outcome {
    if names == [] then Outcome(schema, Fine)
    else if names[0] !in schema then Outcome(schema, Raised(NoSuchTable(names[0])))
    else DropEach(schema - {names[0]}, names[1..])
  }

  /** Drops guarded by a snapshot of the table names, taken before the first drop. */
  function DropExisting(schema: Schema, existing: set<string>, names: seq<string>): Outcome {
    if names == [] then Outcome(schema, Fine)
    else if names[0] !in existing then DropExisting(schema, existing, names[1..])
    else if names[0] !in schema then Outcome(schema, Raised(NoSuchTable(names[0])))
    else DropExisting(schema - {names[0]}, existing, names[1..])
  }

  /** Drops that look for each table just before dropping it. */
  function DropChecked(schema: Schema, names: seq<string>): Schema
    decreases |names|
  {
    if names == [] then schema
    else DropChecked(if names[0] in schema then schema - {names[0]} else schema, names[1..])
  }

  lemma {:induction false} DropCheckedExact(schema: Schema, names: seq<string>)
    ensures DropChecked(schema, names) == schema - Elements(names)
    decreases |names|
  {
    if names != [] {
      assert Elements(names) == {names[0]} + Elements(names[1..]);
      DropCheckedExact(if names[0] in schema then schema - {names[0]} else schema, names[1..]);
    }
  }

  lemma {:induction false} DropEachConcat(schema: Schema, xs: seq<string>, ys: seq<string>)
    requires DropEach(schema, xs).status.Fine?
    ensures DropEach(schema, xs + ys) == DropEach(DropEach(schema, xs).schema, ys)
    decreases |xs|
  {
    if xs == [] {
      assert xs + ys == ys;
    } else {
      assert (xs + ys)[1..] == xs[1..] + ys;
      DropEachConcat(schema - {xs[0]}, xs[1..], ys);
    }
  }

  /** Unconditional drops finish exactly when every name is there and none comes twice. */
  lemma {:induction false} DropEachExact(schema: Schema, names: seq<string>)
    ensures DropEach(schema, names).status.Fine? <==>
            Distinct(names) && Elements(names) <= schema.Keys
    ensures DropEach(schema, names).status.Fine? ==>
              DropEach(schema, names).schema == schema - Elements(names)
  {
    if names != [] {
      var rest := names[1..];
      assert Elements(names) == {names[0]} + Elements(rest);
      if names[0] in schema {
        DropEachExact(schema - {names[0]}, rest);
        if names[0] in rest {
          assert names[0] in Elements(rest);
          var j :| 0 <= j < |rest| && rest[j] == names[0];
          assert names[j + 1] == names[0];
        } else {
          assert forall i, j :: 0 <= i < j < |rest| ==> names[i + 1] == rest[i] && names[j + 1] == rest[j];
          assert Distinct(rest) ==> Distinct(names);
        }
      }
    }
  }

  /** Unconditional drops that fail have dropped the tables before the missing one, and no more. */
  lemma {:induction false} DropEachStops(schema: Schema, names: seq<string>, k: nat)
    requires k < |names| && Distinct(names[..k]) && Elements(names[..k]) <= schema.Keys
    requires names[k] !in schema || names[k] in names[..k]
    ensures DropEach(schema, names) ==
            Outcome(schema - Elements(names[..k]), Raised(NoSuchTable(names[k])))
  {
    DropEachExact(schema, names[..k]);
    DropEachConcat(schema, names[..k], names[k..]);
    assert names[..k] + names[k..] == names;
  }

  /** Drops guarded by a snapshot fail only on a table that is listed twice: the snapshot is
      not refreshed. Otherwise they remove the listed tables and nothing else. */
  lemma {:induction false} DropExistingExact(schema: Schema, existing: set<string>, names: seq<string>)
    requires schema.Keys <= existing
    requires forall t :: t in names && t in existing ==> t in schema
    ensures DropExisting(schema, existing, names).status.Fine? <==>
            forall i, j :: 0 <= i < j < |names| && names[i] == names[j] ==> names[i] !in schema
    ensures DropExisting(schema, existing, names).status.Fine? ==>
              DropExisting(schema, existing, names).schema == schema - Elements(names)
  {
    if names != [] {
      var rest := names[1..];
      assert Elements(names) == {names[0]} + Elements(rest);
      assert forall i :: 0 <= i < |rest| ==> rest[i] == names[i + 1];
      if names[0] !in existing {
        DropExistingExact(schema, existing, rest);
        assert (forall i, j :: 0 <= i < j < |rest| && rest[i] == rest[j] ==> rest[i] !in schema) ==>
            forall i, j :: 0 <= i < j < |names| && names[i] == names[j] ==> names[i] !in schema;
      } else if names[0] in rest {
        var j :| 0 <= j < |rest| && rest[j] == names[0];
        assert names[j + 1] == names[0];
        DropExistingRaises(schema - {names[0]}, existing, rest, j);
      } else {
        DropExistingExact(schema - {names[0]}, existing, rest);
        assert (forall i, j :: 0 <= i < j < |rest| && rest[i] == rest[j] ==> rest[i] !in schema) ==>
            forall i, j :: 0 <= i < j < |names| && names[i] == names[j] ==> names[i] !in schema;
      }
    }
  }

  lemma {:induction false} DropExistingRaises(schema: Schema, existing: set<string>, names: seq<string>, j: nat)
    requires j < |names| && names[j] in existing && names[j] !in schema
    ensures DropExisting(schema, existing, names).status.Raised?
  {
    if j > 0 {
      DropExistingRaises(schema, existing, names[1..], j - 1);
      DropExistingRaises(schema - {names[0]}, existing, names[1..], j - 1);
    }
  }

  lemma {:induction false} CreatedThenRemoved(schema: Schema, names: seq<string>, shapes: Schema)
    requires Elements(names) <= shapes.Keys && Elements(names) !! schema.Keys
    ensures forall t :: t in names ==> t in Elements(names)
    ensures (schema + map t | t in names :: shapes[t]) - Elements(names) == schema
    ensures (schema + map t | t in names :: shapes[t]).Keys == schema.Keys + Elements(names)
  {
  }

  /** Unconditional creates, then drops of the same distinct names in reverse order: the creates
      succeed exactly when none of the tables exist, and then both ways of dropping them
      succeed and restore the schema. */
  lemma {:induction false} CreateThenDrop(schema: Schema, names: seq<string>, shapes: Schema)
    requires Elements(names) <= shapes.Keys && Distinct(names)
    ensures var up := CreateEach(schema, names, shapes);
            && (up.status.Fine? <==> Elements(names) !! schema.Keys)
            && (up.status.Fine? ==> up.schema.Keys == schema.Keys + Elements(names))
            && (up.status.Fine? ==> up.schema - Elements(names) == schema)
            && (up.status.Fine? ==> DropEach(up.schema, Reverse(names)) == Outcome(schema, Fine))
            && (up.status.Fine? ==> DropChecked(up.schema, Reverse(names)) == schema)
  {
    CreateEachExact(schema, names, shapes);
    ReverseKeepsElements(names);
    var up := CreateEach(schema, names, shapes);
    if up.status.Fine? {
      CreatedThenRemoved(schema, names, shapes);
      DropEachExact(up.schema, Reverse(names));
      DropCheckedExact(up.schema, Reverse(names));
    }
  }

  // ---------------------------------------------------------------- columns

  /** The columns a list of additions holds for one table; the first mention of a column wins. */
  function Extra(columns: seq<ColumnSpec>, t: string): Table {
    if columns == [] then map[]
    else
      var later := Extra(columns[1..], t);
      if columns[0].table == t then later[columns[0].column := columns[0].sqlType] else later
  }

  /** The columns of table `t` once the additions have run: existing columns are kept as they are. */
  function Widened(columns: seq<ColumnSpec>, t: string, shape: Table): Table {
    Extra(columns, t) + shape
  }

  /** Conditional column additions: every table keeps what it has and gains what it lacks;
      a missing table is skipped, since the error is swallowed. */
  function AddColumns(schema: Schema, columns: seq<ColumnSpec>): Schema {
    map t | t in schema :: Widened(columns, t, schema[t])
  }

  lemma {:induction false} ExtraKeys(columns: seq<ColumnSpec>, t: string)
    ensures forall c :: c in Extra(columns, t) <==>
                        exists k :: 0 <= k < |columns| && columns[k].table == t && columns[k].column == c
  {
    if columns != [] {
      ExtraKeys(columns[1..], t);
      forall c
        ensures c in Extra(columns, t) <==>
                exists k :: 0 <= k < |columns| && columns[k].table == t && columns[k].column == c
      {
        if c in Extra(columns[1..], t) {
          var k :| 0 <= k < |columns[1..]| && columns[1..][k].table == t && columns[1..][k].column == c;
          assert columns[k + 1].table == t && columns[k + 1].column == c;
        }
        if k :| 0 <= k < |columns| && columns[k].table == t && columns[k].column == c {
          if k > 0 {
            assert columns[1..][k - 1] == columns[k];
          }
        }
      }
    }
  }

  /** The first mention of a column gives its type. */
  lemma {:induction false} ExtraFirst(columns: seq<ColumnSpec>, k: nat)
    requires k < |columns|
    requires forall j :: 0 <= j < k ==> columns[j].column != columns[k].column
    ensures var c := columns[k];
            c.column in Extra(columns, c.table) && Extra(columns, c.table)[c.column] == c.sqlType
  {
    if k > 0 {
      assert columns[1..][k - 1] == columns[k];
      assert forall j :: 0 <= j < k - 1 ==> columns[1..][j] == columns[j + 1];
      ExtraFirst(columns[1..], k - 1);
    }
  }

  lemma {:induction false} ExtraConcat(xs: seq<ColumnSpec>, ys: seq<ColumnSpec>, t: string)
    ensures Extra(xs + ys, t) == Extra(ys, t) + Extra(xs, t)
  {
    if xs == [] {
      assert xs + ys == ys;
    } else {
      assert (xs + ys)[1..] == xs[1..] + ys;
      ExtraConcat(xs[1..], ys, t);
    }
  }

  lemma {:induction false} WidenedSnoc(columns: seq<ColumnSpec>, c: ColumnSpec, t: string, shape: Table)
    ensures var before := Widened(columns, t, shape);
            Widened(columns + [c], t, shape) ==
            if c.table == t && c.column !in before then before[c.column := c.sqlType] else before
  {
    ExtraConcat(columns, [c], t);
    assert [c][1..] == [];
    assert Extra([c], t) == if c.table == t then map[c.column := c.sqlType] else map[];
  }

  lemma {:induction false} AddColumnsSnoc(schema: Schema, columns: seq<ColumnSpec>, c: ColumnSpec)
    ensures var before := AddColumns(schema, columns);
            AddColumns(schema, columns + [c]) ==
            if c.table in before && c.column !in before[c.table]
            then before[c.table := before[c.table][c.column := c.sqlType]] else before
  {
    forall t | t in schema {
      WidenedSnoc(columns, c, t, schema[t]);
    }
  }

  // ---------------------------------------------------------------- dropping columns

  /** The columns of table `t` that the list names. */
  function ColumnNames(columns: seq<ColumnSpec>, t: string): set<string> {
    set c | c in columns && c.table == t :: c.column
  }

  /** Error-swallowing column drops: every listed column goes from its table, if it is there. */
  function StripColumns(schema: Schema, columns: seq<ColumnSpec>): Schema {
    map t | t in schema :: schema[t] - ColumnNames(columns, t)
  }

  lemma {:induction false} ColumnNamesSnoc(columns: seq<ColumnSpec>, c: ColumnSpec, t: string)
    ensures ColumnNames(columns + [c], t) == ColumnNames(columns, t) + if c.table == t then {c.column} else {}
  {
    assert forall d :: d in columns + [c] <==> d in columns || d == c;
  }

  lemma {:induction false} StripColumnsSnoc(schema: Schema, columns: seq<ColumnSpec>, c: ColumnSpec)
    ensures var before := StripColumns(schema, columns);
            StripColumns(schema, columns + [c]) ==
            if c.table in before && c.column in before[c.table]
            then before[c.table := before[c.table] - {c.column}] else before
  {
    var before, after := StripColumns(schema, columns), StripColumns(schema, columns + [c]);
    forall t | t in schema
      ensures after[t] == if t == c.table && c.column in before[t] then before[t] - {c.column} else before[t]
    {
      ColumnNamesSnoc(columns, c, t);
      assert after[t] == schema[t] - ColumnNames(columns + [c], t);
    }
  }

  // ---------------------------------------------------------------- renaming

  /** Unconditional renames; they stop at a missing source or an existing target. */
  function RenameEach(schema: Schema, renames: seq<Rename>): Outcome
    decreases |renames|
  {
    if renames == [] then Outcome(schema, Fine)
    else
      var Rename(source, target) := renames[0];
      if source !in schema then Outcome(schema, Raised(NoSuchTable(source)))
      else if target in schema then Outcome(schema, Raised(TableExists(target)))
      else RenameEach(Renamed(schema, source, target), renames[1..])
  }

  function Renamed(schema: Schema, source: string, target: string): Schema
    requires source in schema
  {
    (schema - {source})[target := schema[source]]
  }

  /** Renames guarded by one snapshot of the table names; errors are swallowed. */
  function RenameGuarded(schema: Schema, existing: set<string>, renames: seq<Rename>): Schema
    decreases |renames|
  {
    if renames == [] then schema
    else
      var Rename(source, target) := renames[0];
      var next :=
        if source in existing && target !in existing && source in schema && target !in schema
        then Renamed(schema, source, target) else schema;
      RenameGuarded(next, existing, renames[1..])
  }

  // ---------------------------------------------------------------- the database

  class Database {
    var tables: Schema

    constructor (initial: Schema)
      ensures tables == initial
    {
      tables := initial;
    }

    method CreateTable(name: string, shape: Table) returns (status: Status)
      modifies this
      ensures status.Fine? <==> name !in old(tables)
      ensures tables == if status.Fine? then old(tables)[name := shape] else old(tables)
      ensures status.Raised? ==> status.error == TableExists(name)
    {
      if name in tables {
        return Raised(TableExists(name));
      }
      tables := tables[name := shape];
      return Fine;
    }

    method DropTable(name: string) returns (status: Status)
      modifies this
      ensures status.Fine? <==> name in old(tables)
      ensures tables == old(tables) - {name}
      ensures status.Raised? ==> status.error == NoSuchTable(name)
    {
      if name !in tables {
        assert tables - {name} == tables;
        return Raised(NoSuchTable(name));
      }
      tables := tables - {name};
      return Fine;
    }

    method RenameTable(source: string, target: string) returns (status: Status)
      modifies this
      ensures status.Fine? <==> source in old(tables) && target !in old(tables)
      ensures tables == if status.Fine? then Renamed(old(tables), source, target) else old(tables)
      ensures status.Raised? ==>
                status.error == if source !in old(tables) then NoSuchTable(source) else TableExists(target)
    {
      if source !in tables {
        return Raised(NoSuchTable(source));
      }
      if target in tables {
        return Raised(TableExists(target));
      }
      tables := Renamed(tables, source, target);
      return Fine;
    }

    /** The unconditional creates of 0001 and 0002. */
    method CreateInOrder(names: seq<string>, shapes: Schema) returns (status: Status)
      requires Elements(names) <= shapes.Keys
      modifies this
      ensures Outcome(tables, status) == CreateEach(old(tables), names, shapes)
    {
      for i := 0 to |names|
        invariant CreateEach(old(tables), names, shapes) == CreateEach(tables, names[i..], shapes)
      {
        assert names[i] in Elements(names) && names[i..][1..] == names[i + 1..];
        status := CreateTable(names[i], shapes[names[i]]);
        if status.Raised? {
          return;
        }
      }
      status := Fine;
    }

    /** `create_all(..., checkfirst=True)` over the listed tables the metadata knows. */
    method CreateFromMetadata(names: seq<string>, metadata: Schema)
      modifies this
      ensures tables == CreateMissing(old(tables), names, metadata)
    {
      for i := 0 to |names|
        invariant tables == CreateMissing(old(tables), names[..i], metadata)
      {
        CreateMissingSnoc(old(tables), names[..i], names[i], metadata);
        assert names[..i + 1] == names[..i] + [names[i]];
        if names[i] in metadata && names[i] !in tables {
          var _ := CreateTable(names[i], metadata[names[i]]);
        }
      }
      assert names[..|names|] == names;
    }

    /** The add-column loop of 0019: an absent table raises, and the error is swallowed. */
    method AddMissingColumns(columns: seq<ColumnSpec>)
      modifies this
      ensures tables == AddColumns(old(tables), columns)
    {
      assert forall t | t in tables :: Widened([], t, tables[t]) == tables[t];
      assert columns[..0] == [];
      for i := 0 to |columns|
        invariant tables == AddColumns(old(tables), columns[..i])
      {
        var c := columns[i];
        AddColumnsSnoc(old(tables), columns[..i], c);
        assert columns[..i + 1] == columns[..i] + [c];
        if c.table in tables && c.column !in tables[c.table] {
          tables := tables[c.table := tables[c.table][c.column := c.sqlType]];
        }
      }
      assert columns[..|columns|] == columns;
    }

    /** The drop-column loop of 0029: an absent table or column raises, and the error is swallowed. */
    method DropColumns(columns: seq<ColumnSpec>)
      modifies this
      ensures tables == StripColumns(old(tables), columns)
    {
      assert forall t | t in tables :: tables[t] - ColumnNames([], t) == tables[t];
      for i := 0 to |columns|
        invariant tables == StripColumns(old(tables), columns[..i])
      {
        var c := columns[i];
        StripColumnsSnoc(old(tables), columns[..i], c);
        assert columns[..i + 1] == columns[..i] + [c];
        if c.table in tables && c.column in tables[c.table] {
          tables := tables[c.table := tables[c.table] - {c.column}];
        }
      }
      assert columns[..|columns|] == columns;
    }

    /** The drop loop of 0002: each table is looked up just before it is dropped. */
    method DropIfExists(names: seq<string>)
      modifies this
      ensures tables == DropChecked(old(tables), names)
    {
      for i := 0 to |names|
        invariant DropChecked(old(tables), names) == DropChecked(tables, names[i..])
      {
        assert names[i..][1..] == names[i + 1..];
        if names[i] in tables {
          var _ := DropTable(names[i]);
        }
      }
    }

    /** The drop loop of 0007-0010: a table goes only if the snapshot has it. */
    method DropIfPresent(names: seq<string>) returns (status: Status)
      modifies this
      ensures Outcome(tables, status) == DropExisting(old(tables), old(tables).Keys, names)
    {
      var existing := tables.Keys;
      for i := 0 to |names|
        invariant DropExisting(old(tables), existing, names) == DropExisting(tables, existing, names[i..])
      {
        assert names[i..][1..] == names[i + 1..];
        if names[i] in existing {
          status := DropTable(names[i]);
          if status.Raised? {
            return;
          }
        }
      }
      status := Fine;
    }

    /** The drop loops of 0001, 0011 and 0012: the first missing table raises. */
    method DropInOrder(names: seq<string>) returns (status: Status)
      modifies this
      ensures Outcome(tables, status) == DropEach(old(tables), names)
    {
      for i := 0 to |names|
        invariant DropEach(old(tables), names) == DropEach(tables, names[i..])
      {
        assert names[i..][1..] == names[i + 1..];
        status := DropTable(names[i]);
        if status.Raised? {
          return;
        }
      }
      status := Fine;
    }

    /** The drop loop of 0013-0022: every error is swallowed. */
    method DropSwallowing(names: seq<string>)
      modifies this
      ensures tables == old(tables) - Elements(names)
    {
      for i := 0 to |names|
        invariant tables == old(tables) - Elements(names[..i])
      {
        assert Elements(names[..i + 1]) == Elements(names[..i]) + {names[i]};
        var _ := DropTable(names[i]);
      }
      assert names[..|names|] == names;
    }

    /** The renames of 0004_sre_rename_tables, up or down. */
    method RenameInOrder(renames: seq<Rename>) returns (status: Status)
      modifies this
      ensures Outcome(tables, status) == RenameEach(old(tables), renames)
    {
      for i := 0 to |renames|
        invariant RenameEach(old(tables), renames) == RenameEach(tables, renames[i..])
      {
        assert renames[i..][1..] == renames[i + 1..];
        status := RenameTable(renames[i].source, renames[i].target);
        if status.Raised? {
          return;
        }
      }
      status := Fine;
    }

    /** The guarded renames of 0044_merge_sre_rename, up or down. */
    method RenameIfApplicable(renames: seq<Rename>)
      modifies this
      ensures tables == RenameGuarded(old(tables), old(tables).Keys, renames)
    {
      var existing := tables.Keys;
      for i := 0 to |renames|
        invariant RenameGuarded(old(tables), existing, renames) == RenameGuarded(tables, existing, renames[i..])
      {
        assert renames[i..][1..] == renames[i + 1..];
        if renames[i].source in existing && renames[i].target !in existing {
          var _ := RenameTable(renames[i].source, renames[i].target);
        }
      }
    }
  }
}
