/** When the schema at a position of a chain does not depend on the walk that led there: the exact
    conditions, on every start schema and every metadata, for all walks that finish. */
module PathIndependence {
  import opened Schemas
  import opened Migrations
  import opened Walks

  ghost predicate Finishes(chain: Chain, metadata: Schema, start: Schema, w: Walk) {
    Stays(|chain|, w) && Run(chain, metadata, start, w).status.Fine?
  }

  /** Walks that finish at the same position always leave the same tables. */
  ghost predicate TablesPathIndependent(chain: Chain, metadata: Schema, start: Schema) {
    forall w1, w2 :: Finishes(chain, metadata, start, w1) && Finishes(chain, metadata, start, w2) &&
                     Position(w1) == Position(w2) ==>
                       Run(chain, metadata, start, w1).schema.Keys == Run(chain, metadata, start, w2).schema.Keys
  }

  /** Walks that finish at the same position always leave the same schema, columns included. */
  ghost predicate PathIndependent(chain: Chain, metadata: Schema, start: Schema) {
    forall w1, w2 :: Finishes(chain, metadata, start, w1) && Finishes(chain, metadata, start, w2) &&
                     Position(w1) == Position(w2) ==>
                       Run(chain, metadata, start, w1).schema == Run(chain, metadata, start, w2).schema
  }

  // ---------------------------------------------------------------- which migrations can be undone

  /** Some walk undoes migration `i`: if it drops unconditionally, each of its tables is known to
      the metadata or in the start schema. */
  ghost predicate Undoable(chain: Chain, metadata: Schema, start: Schema, i: nat)
    requires i < |chain|
  {
    chain[i].drop.Unconditional? ==> forall t :: t in chain[i].tables ==> t in metadata || t in start
  }

  lemma {:induction false} UndoneIsUndoable(chain: Chain, metadata: Schema, start: Schema, w: Walk, i: nat)
    requires Stays(|chain|, w) && NeverBlocked(chain, metadata, start, w)
    requires i < |chain| && EverUndone(w, i)
    ensures Undoable(chain, metadata, start, i)
  {
    if !Undoes(w, i) {
      UndoneIsUndoable(chain, metadata, start, w.before, i);
    } else {
      assert CanUndo(chain, metadata, start, w.before);
    }
  }

  lemma {:induction false} UpsUndoNothing(up: nat, i: nat)
    ensures !EverUndone(Ups(up), i)
  {
    if up > 0 {
      UpsUndoNothing(up - 1, i);
      assert Ups(up) == Then(Ups(up - 1), Up);
    }
  }

  lemma {:induction false} UpsFinish(chain: Chain, metadata: Schema, start: Schema, up: nat)
    requires up <= |chain|
    ensures Stays(|chain|, Ups(up)) && Position(Ups(up)) == up
    ensures NeverBlocked(chain, metadata, start, Ups(up))
  {
    UpsStay(|chain|, up);
    if up > 0 {
      UpsStay(|chain|, up - 1);
      UpsFinish(chain, metadata, start, up - 1);
      assert Ups(up) == Then(Ups(up - 1), Up);
    }
  }

  lemma {:induction false} DirectFinishes(chain: Chain, metadata: Schema, start: Schema, i: nat)
    requires WellFormed(chain) && i <= |chain|
    ensures Finishes(chain, metadata, start, Ups(i)) && Position(Ups(i)) == i
  {
    UpsFinish(chain, metadata, start, i);
    WalkExact(chain, metadata, start, Ups(i));
  }

  /** Up to just above migration `i`, and down again below it. */
  function Detour(i: nat): Walk {
    Then(Ups(i + 1), Down)
  }

  lemma {:induction false} DetourUndoes(i: nat, k: nat)
    requires Position(Ups(i + 1)) == i + 1
    ensures EverUndone(Detour(i), k) <==> k == i
  {
    UpsUndoNothing(i + 1, k);
  }

  lemma {:induction false} DetourFinishes(chain: Chain, metadata: Schema, start: Schema, i: nat)
    requires WellFormed(chain) && i < |chain| && Undoable(chain, metadata, start, i)
    ensures Finishes(chain, metadata, start, Detour(i)) && Position(Detour(i)) == i
  {
    UpsFinish(chain, metadata, start, i + 1);
    UpsUndoNothing(i + 1, i);
    StepDownNeverBlocked(chain, metadata, start, Ups(i + 1), i);
    WalkExact(chain, metadata, start, Detour(i));
  }

  lemma {:induction false} StepDownNeverBlocked(chain: Chain, metadata: Schema, start: Schema, w: Walk, i: nat)
    requires Stays(|chain|, w) && Position(w) == i + 1 && NeverBlocked(chain, metadata, start, w)
    requires !EverUndone(w, i) && Undoable(chain, metadata, start, i)
    ensures Stays(|chain|, Then(w, Down)) && NeverBlocked(chain, metadata, start, Then(w, Down))
  {
  }

  // ---------------------------------------------------------------- tables

  /** The start schema holds no table of a migration that can be undone. */
  ghost predicate NothingAtRisk(chain: Chain, metadata: Schema, start: Schema) {
    forall i, t :: 0 <= i < |chain| && Undoable(chain, metadata, start, i) && t in chain[i].tables ==> t !in start
  }

  lemma {:induction false} NothingDropped(chain: Chain, metadata: Schema, start: Schema, w: Walk)
    requires WellFormed(chain) && NothingAtRisk(chain, metadata, start) && Finishes(chain, metadata, start, w)
    ensures start.Keys !! Dropped(chain, w)
  {
    WalkExact(chain, metadata, start, w);
    forall i, t | 0 <= i < |chain| && EverUndone(w, i) && t in chain[i].tables
      ensures t !in start
    {
      UndoneIsUndoable(chain, metadata, start, w, i);
    }
  }

  /** A start schema that holds a table of an undoable migration loses it on the detour over that
      migration, and keeps it on the straight way to the same position. */
  lemma {:induction false} TableAtRisk(chain: Chain, metadata: Schema, start: Schema, i: nat, t: string)
    requires WellFormed(chain) && i < |chain| && Undoable(chain, metadata, start, i)
    requires t in chain[i].tables && t in start
    ensures !TablesPathIndependent(chain, metadata, start)
  {
    DirectFinishes(chain, metadata, start, i);
    DetourFinishes(chain, metadata, start, i);
    TablesAfterWalk(chain, metadata, start, Ups(i));
    TablesAfterWalk(chain, metadata, start, Detour(i));
    UpsUndoNothing(i, i);
    DetourUndoes(i, i);
    ListedInOne(chain, Ups(i), i, t);
    ListedInOne(chain, Detour(i), i, t);
    assert t in Run(chain, metadata, start, Ups(i)).schema.Keys;
    assert t !in Run(chain, metadata, start, Detour(i)).schema.Keys;
  }

  /** Which tables exist after a walk that finishes depends only on the position reached, whatever
      the drop disciplines, if and only if the start schema holds no table of a migration that can
      be undone. */
  lemma {:induction false} TablesDependOnPositionIff(chain: Chain, metadata: Schema, start: Schema)
    requires WellFormed(chain)
    ensures TablesPathIndependent(chain, metadata, start) <==> NothingAtRisk(chain, metadata, start)
  {
    if NothingAtRisk(chain, metadata, start) {
      forall w1, w2 | Finishes(chain, metadata, start, w1) && Finishes(chain, metadata, start, w2) &&
                      Position(w1) == Position(w2)
        ensures Run(chain, metadata, start, w1).schema.Keys == Run(chain, metadata, start, w2).schema.Keys
      {
        NothingDropped(chain, metadata, start, w1);
        NothingDropped(chain, metadata, start, w2);
        TablesAfterWalk(chain, metadata, start, w1);
        TablesAfterWalk(chain, metadata, start, w2);
      }
    } else {
      var i, t :| 0 <= i < |chain| && Undoable(chain, metadata, start, i) && t in chain[i].tables && t in start;
      TableAtRisk(chain, metadata, start, i, t);
    }
  }

  // ---------------------------------------------------------------- columns

  /** The columns a listed table has before any are added: those in the start schema, or else
      those of the metadata. */
  function BaseOf(metadata: Schema, start: Schema, t: string): Option<Table> {
    if t in start then Some(start[t]) else Lookup(metadata, t)
  }

  /** One of the first `n` migrations adds a column of that name to that table. */
  ghost predicate AddedEarlier(chain: Chain, n: nat, c: ColumnSpec)
    requires n <= |chain|
  {
    exists k, d :: 0 <= k < n && d in chain[k].columns && d.table == c.table && d.column == c.column
  }

  /** A column that an undoable migration adds is never news to a table that may be there. */
  ghost predicate NothingLeftBehind(chain: Chain, metadata: Schema, start: Schema) {
    forall j, c :: 0 <= j < |chain| && c in chain[j].columns && Undoable(chain, metadata, start, j) ==>
                     AlreadyThere(chain, metadata, start, j, c)
  }

  ghost predicate AlreadyThere(chain: Chain, metadata: Schema, start: Schema, j: nat, c: ColumnSpec)
    requires j <= |chain|
  {
    var base := BaseOf(metadata, start, c.table);
    base.Some? ==> c.column in base.value || AddedEarlier(chain, j, c)
  }

  lemma {:induction false} ColumnComesFrom(chain: Chain, n: nat, c: ColumnSpec)
    requires n <= |chain| && c in ColumnsBelow(chain, n)
    ensures exists j :: 0 <= j < n && c in chain[j].columns
  {
    assert n > 0;
    if c in ColumnsBelow(chain, n - 1) {
      ColumnComesFrom(chain, n - 1, c);
    } else {
      assert c in chain[n - 1].columns;
    }
  }

  lemma {:induction false} WidenedHas(chain: Chain, n: nat, c: ColumnSpec, base: Table)
    requires n <= |chain|
    ensures c.column in Widened(ColumnsBelow(chain, n), c.table, base) <==>
            c.column in base || AddedEarlier(chain, n, c)
  {
    var columns := ColumnsBelow(chain, n);
    ExtraKeys(columns, c.table);
    if k :| 0 <= k < |columns| && columns[k].table == c.table && columns[k].column == c.column {
      ColumnComesFrom(chain, n, columns[k]);
    }
    if k, d :| 0 <= k < n && d in chain[k].columns && d.table == c.table && d.column == c.column {
      ColumnsContain(chain, n, k, d);
      var at :| 0 <= at < |columns| && columns[at] == d;
    }
  }

  /** Migrations above the position that the walk has been past since `i` was last undone have
      themselves been undone. */
  lemma {:induction false} PassedIsUndone(w: Walk, i: nat, j: nat)
    requires Position(w) <= j < Peak(w, i)
    ensures EverUndone(w, j)
  {
    if w.Then? && !Undoes(w, j) {
      PassedIsUndone(w.before, i, j);
    }
  }

  lemma {:induction false} NothingGrows(chain: Chain, metadata: Schema, start: Schema, p: nat, n: nat, t: string)
    requires NothingLeftBehind(chain, metadata, start) && p <= n <= |chain|
    requires forall j :: p <= j < n ==> Undoable(chain, metadata, start, j)
    requires BaseOf(metadata, start, t).Some?
    ensures var base := BaseOf(metadata, start, t).value;
            Widened(ColumnsBelow(chain, n), t, base) == Widened(ColumnsBelow(chain, p), t, base)
  {
    if p < n {
      var base := BaseOf(metadata, start, t).value;
      var below := ColumnsBelow(chain, n - 1);
      NothingGrows(chain, metadata, start, p, n - 1, t);
      WidenedConcat(below, chain[n - 1].columns, t, base);
      forall c | c in chain[n - 1].columns && c.table == t
        ensures c.column in Widened(below, t, base)
      {
        assert AlreadyThere(chain, metadata, start, n - 1, c);
        WidenedHas(chain, n - 1, c, base);
      }
      NothingToAdd(chain[n - 1].columns, t, Widened(below, t, base));
    }
  }

  /** What a listed table looks like at position `p`, whatever the walk. */
  ghost function Settled(chain: Chain, metadata: Schema, start: Schema, p: nat, i: nat, t: string): Option<Table>
    requires p <= |chain|
  {
    if t !in start && p <= i then None
    else match BaseOf(metadata, start, t)
         case None => None
         case Some(base) => Some(Widened(ColumnsBelow(chain, p), t, base))
  }

  lemma {:induction false} ExpectedIsSettled(chain: Chain, metadata: Schema, start: Schema, w: Walk, i: nat,
                                             t: string)
    requires WellFormed(chain) && Finishes(chain, metadata, start, w)
    requires NothingAtRisk(chain, metadata, start) && NothingLeftBehind(chain, metadata, start)
    requires i < |chain| && t in chain[i].tables
    ensures ExpectedListed(chain, metadata, start, w, i, t) ==
            Settled(chain, metadata, start, Position(w), i, t)
  {
    var p := Position(w);
    WalkExact(chain, metadata, start, w);
    PeakBounds(|chain|, w, i);
    if EverUndone(w, i) {
      UndoneIsUndoable(chain, metadata, start, w, i);
    }
    if BaseShape(metadata, start, w, i, t).Some? {
      ExpectedGiven(chain, metadata, start, w, i, t, BaseOf(metadata, start, t).value);
      if p <= i {
        NoColumnsBeforeOwner(chain, Peak(w, i), i, t);
        NoColumnsBeforeOwner(chain, p, i, t);
      } else {
        forall j | p <= j < Peak(w, i)
          ensures Undoable(chain, metadata, start, j)
        {
          PassedIsUndone(w, i, j);
          UndoneIsUndoable(chain, metadata, start, w, j);
        }
        NothingGrows(chain, metadata, start, p, Peak(w, i), t);
      }
    }
  }

  lemma {:induction false} SettledSchema(chain: Chain, metadata: Schema, start: Schema, w1: Walk, w2: Walk)
    requires WellFormed(chain) && NothingAtRisk(chain, metadata, start) && NothingLeftBehind(chain, metadata, start)
    requires Finishes(chain, metadata, start, w1) && Finishes(chain, metadata, start, w2)
    requires Position(w1) == Position(w2)
    ensures Run(chain, metadata, start, w1).schema == Run(chain, metadata, start, w2).schema
  {
    var r1, r2 := Run(chain, metadata, start, w1).schema, Run(chain, metadata, start, w2).schema;
    RunListed(chain, metadata, start, w1);
    RunListed(chain, metadata, start, w2);
    forall t
      ensures Lookup(r1, t) == Lookup(r2, t)
    {
      if i :| 0 <= i < |chain| && t in chain[i].tables {
        ExpectedIsSettled(chain, metadata, start, w1, i, t);
        ExpectedIsSettled(chain, metadata, start, w2, i, t);
      } else {
        RunUnlisted(chain, metadata, start, w1, t);
        RunUnlisted(chain, metadata, start, w2, t);
      }
    }
    SameLookups(r1, r2);
  }

  /** An added column that a table did not have before is still there after the migration that
      added it has been undone: of two walks, the one that went past that migration has the
      column and the one that did not lacks it. */
  lemma {:induction false} AddedColumnOutlives(chain: Chain, metadata: Schema, start: Schema, i: nat, j: nat,
                                               c: ColumnSpec, shape: Table, detour: Walk, direct: Walk)
    requires WellFormed(chain) && i < |chain| && c.table in chain[i].tables
    requires j < |chain| && c in chain[j].columns && c.column !in shape && !AddedEarlier(chain, j, c)
    requires Finishes(chain, metadata, start, detour) && Finishes(chain, metadata, start, direct)
    requires BaseShape(metadata, start, detour, i, c.table) == Some(shape) && Peak(detour, i) > j
    requires BaseShape(metadata, start, direct, i, c.table) == Some(shape) && Peak(direct, i) <= j
    ensures var past := Run(chain, metadata, start, detour).schema;
            c.table in past && c.column in past[c.table]
    ensures var short := Run(chain, metadata, start, direct).schema;
            c.table in short && c.column !in short[c.table]
  {
    RunListed(chain, metadata, start, detour);
    RunListed(chain, metadata, start, direct);
    ExpectedGiven(chain, metadata, start, detour, i, c.table, shape);
    ExpectedGiven(chain, metadata, start, direct, i, c.table, shape);
    WidenedHas(chain, Peak(detour, i), c, shape);
    WidenedHas(chain, Peak(direct, i), c, shape);
    assert Lookup(Run(chain, metadata, start, detour).schema, c.table) ==
           ExpectedListed(chain, metadata, start, detour, i, c.table);
    assert Lookup(Run(chain, metadata, start, direct).schema, c.table) ==
           ExpectedListed(chain, metadata, start, direct, i, c.table);
  }

  lemma {:induction false} ColumnLeftBehind(chain: Chain, metadata: Schema, start: Schema, j: nat, c: ColumnSpec)
    requires WellFormed(chain) && j < |chain| && c in chain[j].columns && Undoable(chain, metadata, start, j)
    requires !AlreadyThere(chain, metadata, start, j, c)
    ensures !PathIndependent(chain, metadata, start)
  {
    assert ListedBefore(chain, j, c.table);
    var i :| 0 <= i < j && c.table in chain[i].tables;
    DirectFinishes(chain, metadata, start, j);
    DetourFinishes(chain, metadata, start, j);
    UpsUndoNothing(j, i);
    DetourUndoes(j, i);
    UpsPeak(j, i);
    UpsPeak(j + 1, i);
    AddedColumnOutlives(chain, metadata, start, i, j, c, BaseOf(metadata, start, c.table).value, Detour(j), Ups(j));
  }

  /** The whole schema after a walk that finishes depends only on the position reached if and only
      if the start schema holds no table of a migration that can be undone, and each column that
      such a migration adds was there already or is added earlier: a downgrade drops tables it did
      not create, and never takes a column back. */
  lemma {:induction false} SchemaDependsOnPositionIff(chain: Chain, metadata: Schema, start: Schema)
    requires WellFormed(chain)
    ensures PathIndependent(chain, metadata, start) <==>
            NothingAtRisk(chain, metadata, start) && NothingLeftBehind(chain, metadata, start)
  {
    if NothingAtRisk(chain, metadata, start) && NothingLeftBehind(chain, metadata, start) {
      forall w1, w2 | Finishes(chain, metadata, start, w1) && Finishes(chain, metadata, start, w2) &&
                      Position(w1) == Position(w2)
        ensures Run(chain, metadata, start, w1).schema == Run(chain, metadata, start, w2).schema
      {
        SettledSchema(chain, metadata, start, w1, w2);
      }
    }
    TablesDependOnPositionIff(chain, metadata, start);
    if PathIndependent(chain, metadata, start) {
      SameSchemaSameTables(chain, metadata, start);
      if !NothingLeftBehind(chain, metadata, start) {
        var j, c :| 0 <= j < |chain| && c in chain[j].columns && Undoable(chain, metadata, start, j) &&
                    !AlreadyThere(chain, metadata, start, j, c);
        ColumnLeftBehind(chain, metadata, start, j, c);
      }
    }
  }

  lemma {:induction false} SameSchemaSameTables(chain: Chain, metadata: Schema, start: Schema)
    requires PathIndependent(chain, metadata, start)
    ensures TablesPathIndependent(chain, metadata, start)
  {
  }

  // ---------------------------------------------------------------- when no walk raises

  ghost predicate Unlisted(chain: Chain, schema: Schema) {
    forall i, t :: 0 <= i < |chain| && t in chain[i].tables ==> t !in schema
  }

  /** The metadata already has every column that a migration adds to one of its tables. */
  ghost predicate ColumnsKnown(chain: Chain, metadata: Schema) {
    forall j, c :: 0 <= j < |chain| && c in chain[j].columns && c.table in metadata ==>
                     c.column in metadata[c.table]
  }

  lemma {:induction false} AllUndoable(chain: Chain, metadata: Schema, start: Schema)
    requires UnconditionalKnown(chain, metadata)
    ensures forall i :: 0 <= i < |chain| ==> Undoable(chain, metadata, start, i)
    ensures NothingAtRisk(chain, metadata, start) <==> Unlisted(chain, start)
  {
    forall i | 0 <= i < |chain|
      ensures Undoable(chain, metadata, start, i)
    {
    }
  }

  lemma {:induction false} ColumnIsKnown(chain: Chain, metadata: Schema, start: Schema, j: nat, c: ColumnSpec)
    requires WellFormed(chain) && UnconditionalKnown(chain, metadata) && Unlisted(chain, start)
    requires NothingLeftBehind(chain, metadata, start)
    requires j < |chain| && c in chain[j].columns && c.table in metadata
    ensures c.column in metadata[c.table]
    decreases j
  {
    AllUndoable(chain, metadata, start);
    assert ListedBefore(chain, j, c.table);
    assert AlreadyThere(chain, metadata, start, j, c);
    if c.column !in metadata[c.table] {
      var k, d :| 0 <= k < j && d in chain[k].columns && d.table == c.table && d.column == c.column;
      ColumnIsKnown(chain, metadata, start, k, d);
    }
  }

  /** When no walk raises: the schema depends only on the position if and only if the start schema
      holds none of the listed tables and the metadata already has every added column. */
  lemma {:induction false} KnownSchemaIff(chain: Chain, metadata: Schema, start: Schema)
    requires WellFormed(chain) && UnconditionalKnown(chain, metadata)
    ensures TablesPathIndependent(chain, metadata, start) <==> Unlisted(chain, start)
    ensures PathIndependent(chain, metadata, start) <==> Unlisted(chain, start) && ColumnsKnown(chain, metadata)
  {
    TablesDependOnPositionIff(chain, metadata, start);
    SchemaDependsOnPositionIff(chain, metadata, start);
    AllUndoable(chain, metadata, start);
    if Unlisted(chain, start) && NothingLeftBehind(chain, metadata, start) {
      forall j, c | 0 <= j < |chain| && c in chain[j].columns && c.table in metadata
        ensures c.column in metadata[c.table]
      {
        ColumnIsKnown(chain, metadata, start, j, c);
      }
    }
    if Unlisted(chain, start) && ColumnsKnown(chain, metadata) {
      forall j, c | 0 <= j < |chain| && c in chain[j].columns
        ensures AlreadyThere(chain, metadata, start, j, c)
      {
        assert ListedBefore(chain, j, c.table);
      }
    }
  }

  // ---------------------------------------------------------------- a single adding migration

  /** Migration `o` adds the given columns, and no other migration adds any. */
  ghost predicate OnlyAdder(chain: Chain, o: nat, columns: seq<ColumnSpec>) {
    o < |chain| && chain[o].columns == columns &&
    forall j :: 0 <= j < |chain| && j != o ==> chain[j].columns == []
  }

  lemma {:induction false} OneAdderIff(chain: Chain, metadata: Schema, start: Schema, o: nat,
                                       columns: seq<ColumnSpec>)
    requires WellFormed(chain) && OnlyAdder(chain, o, columns) && Undoable(chain, metadata, start, o)
    ensures NothingLeftBehind(chain, metadata, start) <==>
            forall c :: c in columns && BaseOf(metadata, start, c.table).Some? ==>
                          c.column in BaseOf(metadata, start, c.table).value
  {
    forall c | c in columns
      ensures AlreadyThere(chain, metadata, start, o, c) <==>
              (BaseOf(metadata, start, c.table).Some? ==> c.column in BaseOf(metadata, start, c.table).value)
    {
    }
    if NothingLeftBehind(chain, metadata, start) {
      forall c | c in columns && BaseOf(metadata, start, c.table).Some?
        ensures c.column in BaseOf(metadata, start, c.table).value
      {
        assert c in chain[o].columns;
        assert AlreadyThere(chain, metadata, start, o, c);
      }
    }
  }

  /** The same, when the columns go to tables that the start schema lacks. */
  lemma {:induction false} OneAdderSchemaIff(chain: Chain, metadata: Schema, start: Schema, o: nat,
                                             columns: seq<ColumnSpec>)
    requires WellFormed(chain) && OnlyAdder(chain, o, columns) && Undoable(chain, metadata, start, o)
    requires NothingAtRisk(chain, metadata, start) ==> forall c :: c in columns ==> c.table !in start
    ensures PathIndependent(chain, metadata, start) <==>
            && NothingAtRisk(chain, metadata, start)
            && forall c :: c in columns && c.table in metadata ==> c.column in metadata[c.table]
  {
    SchemaDependsOnPositionIff(chain, metadata, start);
    OneAdderIff(chain, metadata, start, o, columns);
  }
}
