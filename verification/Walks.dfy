/** Every run of upgrade and downgrade steps over a chain of migrations.

    `Run` executes a walk step by step. `ExpectedTable` says what one table must look like
    afterwards, from the walk's shape alone, without executing any migration. The theorems of
    this module connect the two for every start schema, every metadata and every walk. */
module Walks {
  import opened Schemas
  import opened Sequences
  import opened Migrations

  datatype Step = Up | Down

  /** A run of steps, the last one outermost. */
  datatype Walk = Start | Then(before: Walk, step: Step)

  type Chain = seq<Migration>

  /** How many migrations of the chain are applied after the walk. */
  function Position(w: Walk): int {
    match w
    case Start => 0
    case Then(before, Up) => Position(before) + 1
    case Then(before, Down) => Position(before) - 1
  }

  /** The walk never leaves a chain of length `n`. */
  predicate Stays(n: nat, w: Walk)
    ensures Stays(n, w) ==> 0 <= Position(w) <= n
  {
    match w
    case Start => true
    case Then(before, _) => Stays(n, before) && 0 <= Position(w) <= n
  }

  /** The walk run from `start`. A failed downgrade ends the run. */
  function Run(chain: Chain, metadata: Schema, start: Schema, w: Walk): Outcome
    requires Stays(|chain|, w)
  {
    match w
    case Start => Outcome(start, Fine)
    case Then(before, step) =>
      var reached := Run(chain, metadata, start, before);
      if reached.status.Raised? then reached
      else if step.Up? then Outcome(Upgrade(chain[Position(before)], metadata, reached.schema), Fine)
      else Downgrade(chain[Position(before) - 1], reached.schema)
  }

  // ---------------------------------------------------------------- history of a walk

  /** The walk's last step undoes migration `i`. */
  predicate Undoes(w: Walk, i: nat) {
    w.Then? && w.step.Down? && Position(w.before) == i + 1
  }

  /** The walk's last step applies migration `i`. */
  predicate Applies(w: Walk, i: nat) {
    w.Then? && w.step.Up? && Position(w.before) == i
  }

  /** Migration `i` has been downgraded at least once. */
  predicate EverUndone(w: Walk, i: nat) {
    w.Then? && (Undoes(w, i) || EverUndone(w.before, i))
  }

  /** The highest position reached since migration `i` was last undone, or since the start. */
  function Peak(w: Walk, i: nat): int {
    match w
    case Start => 0
    case Then(before, Up) => if Position(w) > Peak(before, i) then Position(w) else Peak(before, i)
    case Then(before, Down) => if Undoes(w, i) then i else Peak(before, i)
  }

  lemma {:induction false} PeakBounds(n: nat, w: Walk, i: nat)
    requires Stays(n, w) && i < n
    ensures Position(w) <= Peak(w, i) <= n
    ensures 0 <= Peak(w, i)
    ensures Position(w) <= i ==> Peak(w, i) <= i
  {
    if w.Then? {
      PeakBounds(n, w.before, i);
    }
  }

  /** `p` is the walk as it was after some of its steps. */
  predicate Prefix(p: Walk, w: Walk) {
    p == w || (w.Then? && Prefix(p, w.before))
  }

  lemma {:induction false} EverUndoneMeans(w: Walk, i: nat)
    ensures EverUndone(w, i) <==> exists p :: Prefix(p, w) && Undoes(p, i)
  {
    if w.Then? {
      EverUndoneMeans(w.before, i);
      assert Prefix(w, w);
      if EverUndone(w.before, i) {
        var p :| Prefix(p, w.before) && Undoes(p, i);
        assert Prefix(p, w);
      }
    }
  }

  /** Migration `j` has been applied, and migration `i` has not been undone after that. */
  predicate AppliedSince(w: Walk, j: nat, i: nat) {
    w.Then? && !Undoes(w, i) && (Applies(w, j) || AppliedSince(w.before, j, i))
  }

  /** `Peak` counts exactly the later migrations applied since `i` was last undone. */
  lemma {:induction false} PeakMeans(n: nat, w: Walk, i: nat, j: nat)
    requires Stays(n, w) && i < j < n
    ensures j < Peak(w, i) <==> AppliedSince(w, j, i)
  {
    if w.Then? {
      PeakMeans(n, w.before, i, j);
      PeakBounds(n, w.before, i);
    }
  }

  // ---------------------------------------------------------------- what a walk must leave

  /** No two migrations list the same table, and columns are only added to tables that an
      earlier migration lists. */
  ghost predicate WellFormed(chain: Chain) {
    && (forall i :: 0 <= i < |chain| ==> Distinct(chain[i].tables))
    && (forall i, j, t :: 0 <= i < j < |chain| && t in chain[i].tables ==> t !in chain[j].tables)
    && (forall j, c :: 0 <= j < |chain| && c in chain[j].columns ==> ListedBefore(chain, j, c.table))
  }

  ghost predicate ListedBefore(chain: Chain, j: nat, t: string)
    requires j <= |chain|
  {
    exists i :: 0 <= i < j && t in chain[i].tables
  }

  /** The metadata knows every table that is dropped unconditionally. */
  ghost predicate UnconditionalKnown(chain: Chain, metadata: Schema) {
    forall i, t :: 0 <= i < |chain| && chain[i].drop.Unconditional? && t in chain[i].tables ==> t in metadata
  }

  /** All the columns added by the first `n` migrations, in order. */
  function ColumnsBelow(chain: Chain, n: nat): seq<ColumnSpec>
    requires n <= |chain|
  {
    if n == 0 then [] else ColumnsBelow(chain, n - 1) + chain[n - 1].columns
  }

  /** The columns a listed table was created with: before its migration is ever undone, a table
      of the start schema survives with its own; otherwise they are the metadata's, and only
      while the migration is applied. */
  ghost function BaseShape(metadata: Schema, start: Schema, w: Walk, i: nat, t: string): Option<Table> {
    if !EverUndone(w, i) && t in start then Some(start[t])
    else if i < Position(w) then Lookup(metadata, t)
    else None
  }

  /** A listed table after the walk carries, besides, every column added since its migration was
      last undone. */
  ghost function ExpectedListed(chain: Chain, metadata: Schema, start: Schema, w: Walk, i: nat, t: string)
    : Option<Table>
    requires Stays(|chain|, w) && i < |chain|
  {
    PeakBounds(|chain|, w, i);
    match BaseShape(metadata, start, w, i, t)
    case None => None
    case Some(shape) => Some(Widened(ColumnsBelow(chain, Peak(w, i)), t, shape))
  }

  ghost function ExpectedTable(chain: Chain, metadata: Schema, start: Schema, w: Walk, t: string): Option<Table>
    requires Stays(|chain|, w)
  {
    if i :| 0 <= i < |chain| && t in chain[i].tables
    then ExpectedListed(chain, metadata, start, w, i, t)
    else Lookup(start, t)
  }

  // ---------------------------------------------------------------- columns of one table

  lemma {:induction false} ColumnsAreListedBefore(chain: Chain, n: nat, c: ColumnSpec)
    requires WellFormed(chain) && n <= |chain| && c in ColumnsBelow(chain, n)
    ensures n > 0 && ListedBefore(chain, n - 1, c.table)
  {
    assert n > 0;
    if c in ColumnsBelow(chain, n - 1) {
      ColumnsAreListedBefore(chain, n - 1, c);
    } else {
      assert c in chain[n - 1].columns;
    }
  }

  lemma {:induction false} NoExtra(columns: seq<ColumnSpec>, t: string)
    requires forall c :: c in columns ==> c.table != t
    ensures Extra(columns, t) == map[]
    ensures forall shape :: Widened(columns, t, shape) == shape
  {
    ExtraKeys(columns, t);
    forall c
      ensures c !in Extra(columns, t)
    {
    }
  }

  /** No migration up to and including a table's own adds columns to it. */
  lemma {:induction false} NoColumnsBeforeOwner(chain: Chain, n: nat, i: nat, t: string)
    requires WellFormed(chain) && n <= i + 1 && i < |chain| && t in chain[i].tables && n <= |chain|
    ensures forall shape :: Widened(ColumnsBelow(chain, n), t, shape) == shape
  {
    forall c | c in ColumnsBelow(chain, n)
      ensures c.table != t
    {
      ColumnsAreListedBefore(chain, n, c);
    }
    NoExtra(ColumnsBelow(chain, n), t);
  }

  lemma {:induction false} NoColumnsForUnlisted(chain: Chain, j: nat, t: string, shape: Table)
    requires WellFormed(chain) && j < |chain|
    requires forall i :: 0 <= i < |chain| ==> t !in chain[i].tables
    ensures Widened(chain[j].columns, t, shape) == shape
  {
    forall c | c in chain[j].columns
      ensures c.table != t
    {
      assert ListedBefore(chain, j, c.table);
    }
    NoExtra(chain[j].columns, t);
  }

  lemma {:induction false} WidenedConcat(xs: seq<ColumnSpec>, ys: seq<ColumnSpec>, t: string, shape: Table)
    ensures Widened(xs + ys, t, shape) == Widened(ys, t, Widened(xs, t, shape))
  {
    ExtraConcat(xs, ys, t);
  }

  /** Adding columns a table already has changes nothing. */
  lemma {:induction false} WidenedAgain(chain: Chain, n: nat, j: nat, t: string, shape: Table)
    requires j < n <= |chain|
    ensures Widened(chain[j].columns, t, Widened(ColumnsBelow(chain, n), t, shape)) ==
            Widened(ColumnsBelow(chain, n), t, shape)
  {
    var cols := ColumnsBelow(chain, n);
    forall c | c in Extra(chain[j].columns, t)
      ensures c in Extra(cols, t)
    {
      ExtraKeys(chain[j].columns, t);
      ExtraKeys(cols, t);
      var k :| 0 <= k < |chain[j].columns| && chain[j].columns[k].table == t && chain[j].columns[k].column == c;
      ColumnsContain(chain, n, j, chain[j].columns[k]);
    }
  }

  lemma {:induction false} ColumnsContain(chain: Chain, n: nat, j: nat, c: ColumnSpec)
    requires j < n <= |chain| && c in chain[j].columns
    ensures c in ColumnsBelow(chain, n)
  {
    if j < n - 1 {
      ColumnsContain(chain, n - 1, j, c);
    }
  }

  // ---------------------------------------------------------------- one step, one table

  /** Running migration `j` after the first `n` leaves the columns of the first `n`, and of `j`. */
  lemma {:induction false} WidenedNext(chain: Chain, n: nat, j: nat, t: string, shape: Table)
    requires j <= n <= |chain| && j < |chain|
    ensures Widened(chain[j].columns, t, Widened(ColumnsBelow(chain, n), t, shape)) ==
            Widened(ColumnsBelow(chain, if j < n then n else n + 1), t, shape)
  {
    if j < n {
      WidenedAgain(chain, n, j, t, shape);
    } else {
      WidenedConcat(ColumnsBelow(chain, n), chain[n].columns, t, shape);
      assert ColumnsBelow(chain, n + 1) == ColumnsBelow(chain, n) + chain[n].columns;
    }
  }

  lemma {:induction false} BaseAfterUp(metadata: Schema, start: Schema, before: Walk, i: nat, t: string)
    requires BaseShape(metadata, start, before, i, t).Some?
    ensures BaseShape(metadata, start, Then(before, Up), i, t) == BaseShape(metadata, start, before, i, t)
  {
  }

  lemma {:induction false} ExpectedGiven(chain: Chain, metadata: Schema, start: Schema, w: Walk, i: nat, t: string,
                                         shape: Table)
    requires Stays(|chain|, w) && i < |chain| && BaseShape(metadata, start, w, i, t) == Some(shape)
    ensures 0 <= Peak(w, i) <= |chain|
    ensures ExpectedListed(chain, metadata, start, w, i, t) ==
            Some(Widened(ColumnsBelow(chain, Peak(w, i)), t, shape))
  {
    PeakBounds(|chain|, w, i);
  }

  lemma {:induction false} ExpectedAfterUp(chain: Chain, metadata: Schema, start: Schema, before: Walk, i: nat,
                                           t: string)
    requires Stays(|chain|, before) && i < |chain| && Position(before) < |chain|
    requires ExpectedListed(chain, metadata, start, before, i, t).Some?
    ensures ExpectedListed(chain, metadata, start, Then(before, Up), i, t) ==
            Some(Widened(chain[Position(before)].columns, t,
                         ExpectedListed(chain, metadata, start, before, i, t).value))
  {
    var shape := BaseShape(metadata, start, before, i, t).value;
    BaseAfterUp(metadata, start, before, i, t);
    ExpectedGiven(chain, metadata, start, before, i, t, shape);
    ExpectedGiven(chain, metadata, start, Then(before, Up), i, t, shape);
    PeakBounds(|chain|, before, i);
    WidenedNext(chain, Peak(before, i), Position(before), t, shape);
  }

  lemma {:induction false} ExpectedAfterCreation(chain: Chain, metadata: Schema, start: Schema, before: Walk, i: nat,
                                                 t: string)
    requires WellFormed(chain) && Stays(|chain|, before) && i < |chain| && Position(before) == i
    requires t in chain[i].tables && t in metadata
    requires ExpectedListed(chain, metadata, start, before, i, t).None?
    ensures ExpectedListed(chain, metadata, start, Then(before, Up), i, t) == Some(metadata[t])
    ensures Widened(chain[i].columns, t, metadata[t]) == metadata[t]
  {
    PeakBounds(|chain|, before, i);
    NoColumnsBeforeOwner(chain, i + 1, i, t);
    forall c | c in chain[i].columns
      ensures c.table != t
    {
      assert ListedBefore(chain, i, c.table);
    }
    NoExtra(chain[i].columns, t);
  }

  lemma {:induction false} StepUpListed(chain: Chain, metadata: Schema, start: Schema, before: Walk, schema: Schema,
                                        i: nat, t: string)
    requires WellFormed(chain) && Stays(|chain|, before) && Position(before) < |chain|
    requires i < |chain| && t in chain[i].tables
    requires Lookup(schema, t) == ExpectedListed(chain, metadata, start, before, i, t)
    ensures Lookup(Upgrade(chain[Position(before)], metadata, schema), t) ==
            ExpectedListed(chain, metadata, start, Then(before, Up), i, t)
  {
    var j := Position(before);
    UpgradeLookup(chain[j], metadata, schema, t);
    if t in schema {
      ExpectedAfterUp(chain, metadata, start, before, i, t);
    } else if i == j && t in metadata {
      ExpectedAfterCreation(chain, metadata, start, before, i, t);
    } else {
      assert i != j ==> t !in chain[j].tables;
    }
  }

  lemma {:induction false} StepDownListed(chain: Chain, metadata: Schema, start: Schema, before: Walk, schema: Schema,
                                          i: nat, t: string)
    requires WellFormed(chain) && Stays(|chain|, before) && 0 < Position(before)
    requires i < |chain| && t in chain[i].tables
    requires Lookup(schema, t) == ExpectedListed(chain, metadata, start, before, i, t)
    requires Downgrade(chain[Position(before) - 1], schema).status.Fine?
    ensures Lookup(Downgrade(chain[Position(before) - 1], schema).schema, t) ==
            ExpectedListed(chain, metadata, start, Then(before, Down), i, t)
  {
    var w := Then(before, Down);
    var j := Position(before) - 1;
    DowngradeLookup(chain[j], schema, t);
    assert t in chain[j].tables <==> i == j;
    assert i != j ==> Peak(w, i) == Peak(before, i) && (i < Position(w) <==> i < Position(before));
  }

  // ---------------------------------------------------------------- when a downgrade can run

  /** The migration just applied by the walk can be undone: if it drops unconditionally, each of
      its tables is known to the metadata, or has been in the start schema and never dropped. */
  ghost predicate CanUndo(chain: Chain, metadata: Schema, start: Schema, w: Walk)
    requires Stays(|chain|, w)
  {
    var i := Position(w) - 1;
    i >= 0 && chain[i].drop.Unconditional? ==>
      forall t :: t in chain[i].tables ==> t in metadata || (t in start && !EverUndone(w, i))
  }

  /** No step of the walk undoes a migration that cannot be undone. */
  ghost predicate NeverBlocked(chain: Chain, metadata: Schema, start: Schema, w: Walk)
    requires Stays(|chain|, w)
  {
    match w
    case Start => true
    case Then(before, step) =>
      NeverBlocked(chain, metadata, start, before) && (step.Down? ==> CanUndo(chain, metadata, start, before))
  }

  /** The same, said of every prefix at once: none ends in the downgrade of an unconditional
      migration with a table the metadata lacks that is missing from the start schema or was
      dropped before. */
  lemma {:induction false} NeverBlockedMeans(chain: Chain, metadata: Schema, start: Schema, w: Walk)
    requires Stays(|chain|, w)
    ensures NeverBlocked(chain, metadata, start, w) <==>
            !exists p, i, t :: Prefix(p, w) && BlockedAt(chain, metadata, start, p, i, t)
  {
    if w.Then? {
      NeverBlockedMeans(chain, metadata, start, w.before);
      assert Prefix(w, w);
      if p, i, t :| Prefix(p, w) && BlockedAt(chain, metadata, start, p, i, t) {
        assert p == w || Prefix(p, w.before);
      }
      if p, i, t :| Prefix(p, w.before) && BlockedAt(chain, metadata, start, p, i, t) {
        assert Prefix(p, w);
      }
      if w.step.Down? && !CanUndo(chain, metadata, start, w.before) {
        var i := Position(w.before) - 1;
        var t :| t in chain[i].tables && t !in metadata && !(t in start && !EverUndone(w.before, i));
        assert BlockedAt(chain, metadata, start, w, i, t);
      }
    }
  }

  ghost predicate BlockedAt(chain: Chain, metadata: Schema, start: Schema, p: Walk, i: nat, t: string) {
    && i < |chain| && Undoes(p, i) && chain[i].drop.Unconditional?
    && t in chain[i].tables && t !in metadata && (t !in start || EverUndone(p.before, i))
  }

  lemma {:induction false} StepDownFineIff(chain: Chain, metadata: Schema, start: Schema, w: Walk, schema: Schema)
    requires WellFormed(chain) && Stays(|chain|, w) && Position(w) > 0
    requires IsExpected(chain, metadata, start, w, schema)
    ensures Downgrade(chain[Position(w) - 1], schema).status.Fine? <==> CanUndo(chain, metadata, start, w)
  {
    var j := Position(w) - 1;
    DowngradeExact(chain[j], schema);
    forall t | t in chain[j].tables
      ensures t in schema <==> t in metadata || (t in start && !EverUndone(w, j))
    {
      assert Lookup(schema, t) == ExpectedListed(chain, metadata, start, w, j, t);
    }
    assert forall t :: t in Elements(chain[j].tables) <==> t in chain[j].tables;
  }

  // ---------------------------------------------------------------- the theorems

  /** Every listed table of the schema is what the walk must leave. */
  ghost predicate IsExpected(chain: Chain, metadata: Schema, start: Schema, w: Walk, schema: Schema)
    requires Stays(|chain|, w)
  {
    forall i, t :: 0 <= i < |chain| && t in chain[i].tables ==>
                     Lookup(schema, t) == ExpectedListed(chain, metadata, start, w, i, t)
  }

  lemma {:induction false} StartIsExpected(chain: Chain, metadata: Schema, start: Schema)
    ensures IsExpected(chain, metadata, start, Start, start)
  {
    forall i, t | 0 <= i < |chain| && t in chain[i].tables
      ensures Lookup(start, t) == ExpectedListed(chain, metadata, start, Start, i, t)
    {
      assert t in start ==> Widened([], t, start[t]) == start[t];
    }
  }

  lemma {:induction false} RunListed(chain: Chain, metadata: Schema, start: Schema, w: Walk)
    requires WellFormed(chain) && Stays(|chain|, w)
    ensures Run(chain, metadata, start, w).status.Fine? <==> NeverBlocked(chain, metadata, start, w)
    ensures Run(chain, metadata, start, w).status.Fine? ==>
              IsExpected(chain, metadata, start, w, Run(chain, metadata, start, w).schema)
  {
    if w.Start? {
      StartIsExpected(chain, metadata, start);
    } else {
      var before := w.before;
      RunListed(chain, metadata, start, before);
      if Run(chain, metadata, start, before).status.Fine? {
        StepListed(chain, metadata, start, w, Run(chain, metadata, start, before).schema);
      }
    }
  }

  lemma {:induction false} StepListed(chain: Chain, metadata: Schema, start: Schema, w: Walk, reached: Schema)
    requires WellFormed(chain) && w.Then? && Stays(|chain|, w)
    requires Run(chain, metadata, start, w.before) == Outcome(reached, Fine)
    requires IsExpected(chain, metadata, start, w.before, reached)
    ensures Run(chain, metadata, start, w).status.Fine? <==>
            (w.step.Down? ==> CanUndo(chain, metadata, start, w.before))
    ensures Run(chain, metadata, start, w).status.Fine? ==>
              IsExpected(chain, metadata, start, w, Run(chain, metadata, start, w).schema)
  {
    if w.step.Down? {
      StepDownFineIff(chain, metadata, start, w.before, reached);
    }
    var out := Run(chain, metadata, start, w);
    if out.status.Fine? {
      forall i, t | 0 <= i < |chain| && t in chain[i].tables
        ensures Lookup(out.schema, t) == ExpectedListed(chain, metadata, start, w, i, t)
      {
        StepOneListed(chain, metadata, start, w, reached, out.schema, i, t);
      }
    }
  }

  lemma {:induction false} RunStep(chain: Chain, metadata: Schema, start: Schema, w: Walk, reached: Schema)
    requires w.Then? && Stays(|chain|, w) && Run(chain, metadata, start, w.before) == Outcome(reached, Fine)
    ensures w.step.Up? ==> Run(chain, metadata, start, w) ==
                           Outcome(Upgrade(chain[Position(w.before)], metadata, reached), Fine)
    ensures w.step.Down? ==> Run(chain, metadata, start, w) == Downgrade(chain[Position(w.before) - 1], reached)
  {
  }

  lemma {:induction false} StepOneListed(chain: Chain, metadata: Schema, start: Schema, w: Walk, reached: Schema,
                                         schema: Schema, i: nat, t: string)
    requires WellFormed(chain) && w.Then? && Stays(|chain|, w) && i < |chain| && t in chain[i].tables
    requires Run(chain, metadata, start, w.before) == Outcome(reached, Fine)
    requires Run(chain, metadata, start, w) == Outcome(schema, Fine)
    requires Lookup(reached, t) == ExpectedListed(chain, metadata, start, w.before, i, t)
    ensures Lookup(schema, t) == ExpectedListed(chain, metadata, start, w, i, t)
  {
    RunStep(chain, metadata, start, w, reached);
    if w.step.Up? {
      StepUpListed(chain, metadata, start, w.before, reached, i, t);
    } else {
      StepDownListed(chain, metadata, start, w.before, reached, i, t);
    }
  }

  lemma {:induction false} RunUnlisted(chain: Chain, metadata: Schema, start: Schema, w: Walk, t: string)
    requires WellFormed(chain) && Stays(|chain|, w)
    requires forall i :: 0 <= i < |chain| ==> t !in chain[i].tables
    requires Run(chain, metadata, start, w).status.Fine?
    ensures Lookup(Run(chain, metadata, start, w).schema, t) == Lookup(start, t)
  {
    if w.Then? {
      var before := w.before;
      RunUnlisted(chain, metadata, start, before, t);
      var reached := Run(chain, metadata, start, before).schema;
      var j := Position(before);
      if w.step.Up? {
        UpgradeLookup(chain[j], metadata, reached, t);
        if t in reached {
          NoColumnsForUnlisted(chain, j, t, reached[t]);
        }
      } else {
        DowngradeLookup(chain[j - 1], reached, t);
      }
    }
  }

  /** Any walk, from any start schema, with any metadata: it finishes if and only if none of its
      steps is blocked, and whenever it finishes every table is what `ExpectedTable` says. */
  lemma {:induction false} WalkExact(chain: Chain, metadata: Schema, start: Schema, w: Walk)
    requires WellFormed(chain) && Stays(|chain|, w)
    ensures Run(chain, metadata, start, w).status.Fine? <==> NeverBlocked(chain, metadata, start, w)
    ensures Run(chain, metadata, start, w).status.Fine? ==>
              forall t :: Lookup(Run(chain, metadata, start, w).schema, t) ==
                          ExpectedTable(chain, metadata, start, w, t)
  {
    RunListed(chain, metadata, start, w);
    if Run(chain, metadata, start, w).status.Fine? {
      forall t
        ensures Lookup(Run(chain, metadata, start, w).schema, t) == ExpectedTable(chain, metadata, start, w, t)
      {
        if forall i :: 0 <= i < |chain| ==> t !in chain[i].tables {
          RunUnlisted(chain, metadata, start, w, t);
        }
      }
    }
  }

  // ---------------------------------------------------------------- metadata for which no walk fails

  function Ups(n: nat): Walk {
    if n == 0 then Start else Then(Ups(n - 1), Up)
  }

  lemma {:induction false} UpsStay(n: nat, up: nat)
    requires up <= n
    ensures Stays(n, Ups(up)) && Position(Ups(up)) == up
  {
    if up > 0 {
      UpsStay(n, up - 1);
      assert Ups(up) == Then(Ups(up - 1), Up);
    }
  }

  lemma {:induction false} UpsPeak(up: nat, i: nat)
    ensures Peak(Ups(up), i) == up
  {
    if up > 0 {
      UpsPeak(up - 1, i);
      UpsStay(up, up);
      assert Ups(up) == Then(Ups(up - 1), Up);
    }
  }

  /** Undoing migration `i`, applying it and undoing it again. */
  function UndoTwice(applied: Walk): Walk {
    Then(Then(Then(applied, Down), Up), Down)
  }

  /** The second undo is blocked by a table the metadata lacks, whatever the start schema. */
  lemma {:induction false} UndoTwiceIsBlocked(chain: Chain, metadata: Schema, start: Schema, applied: Walk, i: nat,
                                              t: string)
    requires i < |chain| && chain[i].drop.Unconditional? && t in chain[i].tables && t !in metadata
    requires Stays(|chain|, applied) && Position(applied) == i + 1
    ensures Stays(|chain|, UndoTwice(applied))
    ensures !NeverBlocked(chain, metadata, start, UndoTwice(applied))
  {
    var reapplied := Then(Then(applied, Down), Up);
    assert Position(reapplied) == i + 1 && EverUndone(reapplied, i);
    assert !CanUndo(chain, metadata, start, reapplied);
  }

  lemma {:induction false} KnownNeverBlocked(chain: Chain, metadata: Schema, start: Schema, w: Walk)
    requires UnconditionalKnown(chain, metadata) && Stays(|chain|, w)
    ensures NeverBlocked(chain, metadata, start, w)
  {
    if w.Then? {
      KnownNeverBlocked(chain, metadata, start, w.before);
    }
  }

  lemma {:induction false} KnownFinishes(chain: Chain, metadata: Schema, start: Schema, w: Walk)
    requires WellFormed(chain) && UnconditionalKnown(chain, metadata) && Stays(|chain|, w)
    ensures Run(chain, metadata, start, w).status.Fine?
  {
    KnownNeverBlocked(chain, metadata, start, w);
    WalkExact(chain, metadata, start, w);
  }

  /** From any start schema: no walk ever raises if and only if the metadata knows every table
      that is dropped unconditionally. */
  lemma {:induction false} NoWalkRaisesIff(chain: Chain, metadata: Schema, start: Schema)
    requires WellFormed(chain)
    ensures (forall w :: Stays(|chain|, w) ==> Run(chain, metadata, start, w).status.Fine?) <==>
            UnconditionalKnown(chain, metadata)
  {
    if UnconditionalKnown(chain, metadata) {
      forall w | Stays(|chain|, w)
        ensures Run(chain, metadata, start, w).status.Fine?
      {
        KnownFinishes(chain, metadata, start, w);
      }
    } else {
      var i, t :| 0 <= i < |chain| && chain[i].drop.Unconditional? && t in chain[i].tables && t !in metadata;
      var w := UnknownTableRaises(chain, metadata, start, i, t);
    }
  }

  lemma {:induction false} UnknownTableRaises(chain: Chain, metadata: Schema, start: Schema, i: nat, t: string)
    returns (w: Walk)
    requires WellFormed(chain) && i < |chain| && chain[i].drop.Unconditional?
    requires t in chain[i].tables && t !in metadata
    ensures Stays(|chain|, w) && Run(chain, metadata, start, w).status.Raised?
  {
    UpsStay(|chain|, i + 1);
    var applied := Ups(i + 1);
    UndoTwiceIsBlocked(chain, metadata, start, applied, i, t);
    w := UndoTwice(applied);
    WalkExact(chain, metadata, start, w);
  }

  // ---------------------------------------------------------------- which tables exist

  /** The tables of the first `n` migrations of the chain. */
  ghost function Applied(chain: Chain, n: nat): set<string>
    requires n <= |chain|
  {
    set i, t | 0 <= i < n && t in chain[i].tables :: t
  }

  /** The tables of the migrations that the walk has undone at least once. */
  ghost function Dropped(chain: Chain, w: Walk): set<string> {
    set i, t | 0 <= i < |chain| && EverUndone(w, i) && t in chain[i].tables :: t
  }

  lemma {:induction false} ListedInOne(chain: Chain, w: Walk, i: nat, t: string)
    requires WellFormed(chain) && Stays(|chain|, w) && i < |chain| && t in chain[i].tables
    ensures t in Applied(chain, Position(w)) <==> i < Position(w)
    ensures t in Dropped(chain, w) <==> EverUndone(w, i)
  {
  }

  lemma {:induction false} TableExistsIff(chain: Chain, metadata: Schema, start: Schema, w: Walk, t: string)
    requires WellFormed(chain) && Stays(|chain|, w)
    ensures ExpectedTable(chain, metadata, start, w, t).Some? <==>
            (t in start && t !in Dropped(chain, w)) || (t in Applied(chain, Position(w)) && t in metadata)
  {
    if i :| 0 <= i < |chain| && t in chain[i].tables {
      ListedInOne(chain, w, i, t);
    }
  }

  /** Which tables exist after a walk that finishes, whatever it starts from: those of the start
      schema that no step has dropped, and those of the applied migrations that the metadata
      knows. */
  lemma {:induction false} TablesAfterWalk(chain: Chain, metadata: Schema, start: Schema, w: Walk)
    requires WellFormed(chain) && Stays(|chain|, w) && Run(chain, metadata, start, w).status.Fine?
    ensures Run(chain, metadata, start, w).schema.Keys ==
            (start.Keys - Dropped(chain, w)) + Applied(chain, Position(w)) * metadata.Keys
  {
    WalkExact(chain, metadata, start, w);
    var schema := Run(chain, metadata, start, w).schema;
    forall t
      ensures t in schema <==> (t in start && t !in Dropped(chain, w)) ||
                               (t in Applied(chain, Position(w)) && t in metadata)
    {
      assert Lookup(schema, t) == ExpectedTable(chain, metadata, start, w, t);
      TableExistsIff(chain, metadata, start, w, t);
    }
  }

  /** The start schema shares tables with no migration of the chain but `o`. */
  ghost predicate MeetsOnly(chain: Chain, start: Schema, o: nat) {
    forall i, t :: 0 <= i < |chain| && i != o && t in chain[i].tables ==> t !in start
  }

  /** When the start schema overlaps one migration's list only, the overlap is gone once that
      migration has been undone, until the migration brings back what the metadata knows. */
  lemma {:induction false} TablesWhenOverlapping(chain: Chain, metadata: Schema, start: Schema, w: Walk, o: nat)
    requires WellFormed(chain) && Stays(|chain|, w) && Run(chain, metadata, start, w).status.Fine?
    requires o < |chain| && MeetsOnly(chain, start, o)
    ensures Run(chain, metadata, start, w).schema.Keys ==
            (if EverUndone(w, o) then start.Keys - Elements(chain[o].tables) else start.Keys) +
            Applied(chain, Position(w)) * metadata.Keys
  {
    TablesAfterWalk(chain, metadata, start, w);
    forall t | t in start
      ensures t in Dropped(chain, w) <==> EverUndone(w, o) && t in Elements(chain[o].tables)
    {
      if i :| 0 <= i < |chain| && EverUndone(w, i) && t in chain[i].tables {
        assert i == o;
      }
    }
  }
}
