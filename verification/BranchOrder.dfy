/** The branch 0004_sre_rename_tables may be applied and undone at any point of a walk over the
    main line: only the order on each side matters, not how the two are interleaved. */
module BranchOrder {
  import opened Sequences
  import opened Schemas
  import opened Migrations
  import opened Walks
  import opened Renames

  /** A run of main-line steps and of applications (`up`) and undos of the branch. */
  datatype Mixed =
    | Begin
    | Migrate(earlier: Mixed, move: Step)
    | Turn(earlier: Mixed, up: bool)

  function ChainPart(m: Mixed): Walk {
    match m
    case Begin => Start
    case Migrate(earlier, move) => Then(ChainPart(earlier), move)
    case Turn(earlier, _) => ChainPart(earlier)
  }

  function BranchPart(m: Mixed): seq<bool> {
    match m
    case Begin => []
    case Migrate(earlier, _) => BranchPart(earlier)
    case Turn(earlier, up) => BranchPart(earlier) + [up]
  }

  function TurnStep(renames: seq<Rename>, schema: Schema, up: bool): Outcome {
    RenameEach(schema, if up then renames else Undo(renames))
  }

  function TurnRun(renames: seq<Rename>, schema: Schema, turns: seq<bool>): Outcome
    decreases |turns|
  {
    if turns == [] then Outcome(schema, Fine)
    else
      var reached := TurnRun(renames, schema, turns[..|turns| - 1]);
      if reached.status.Raised? then reached else TurnStep(renames, reached.schema, turns[|turns| - 1])
  }

  /** One main-line step from position `p`. */
  function StepFrom(chain: Chain, metadata: Schema, move: Step, p: nat, schema: Schema): Outcome
    requires if move.Up? then p < |chain| else 0 < p <= |chain|
  {
    if move.Up? then Outcome(Upgrade(chain[p], metadata, schema), Fine) else Downgrade(chain[p - 1], schema)
  }

  /** The two kinds of steps in the order given; the first that fails ends the run. */
  function MixedRun(chain: Chain, metadata: Schema, renames: seq<Rename>, start: Schema, m: Mixed): Outcome
    requires Stays(|chain|, ChainPart(m))
  {
    match m
    case Begin => Outcome(start, Fine)
    case Turn(earlier, up) =>
      var reached := MixedRun(chain, metadata, renames, start, earlier);
      if reached.status.Raised? then reached else TurnStep(renames, reached.schema, up)
    case Migrate(earlier, move) =>
      var reached := MixedRun(chain, metadata, renames, start, earlier);
      if reached.status.Raised? then reached
      else StepFrom(chain, metadata, move, Position(ChainPart(earlier)), reached.schema)
  }

  /** Every name the renames mention is in `names`. */
  ghost predicate Within(renames: seq<Rename>, names: set<string>) {
    forall k :: 0 <= k < |renames| ==> renames[k].source in names && renames[k].target in names
  }

  /** The migration lists and widens no table among `names`. */
  ghost predicate Avoids(m: Migration, names: set<string>) {
    && (forall t :: t in m.tables ==> t !in names)
    && (forall c :: c in m.columns ==> c.table !in names)
  }

  lemma {:induction false} UpgradeSplits(m: Migration, metadata: Schema, a: Schema, b: Schema, names: set<string>)
    requires Avoids(m, names) && a.Keys !! names && b.Keys <= names
    ensures Upgrade(m, metadata, a + b) == Upgrade(m, metadata, a) + b
    ensures Upgrade(m, metadata, a).Keys !! names
  {
    forall t
      ensures Lookup(Upgrade(m, metadata, a + b), t) == Lookup(Upgrade(m, metadata, a) + b, t)
      ensures t in names ==> t !in Upgrade(m, metadata, a)
    {
      UpgradeLookup(m, metadata, a + b, t);
      UpgradeLookup(m, metadata, a, t);
      if t in b {
        NothingToAdd(m.columns, t, b[t]);
      }
    }
    SameLookups(Upgrade(m, metadata, a + b), Upgrade(m, metadata, a) + b);
  }

  lemma {:induction false} DowngradeSplits(m: Migration, a: Schema, b: Schema, names: set<string>)
    requires Avoids(m, names) && Distinct(m.tables) && a.Keys !! names && b.Keys <= names
    ensures Downgrade(m, a + b).status.Fine? <==> Downgrade(m, a).status.Fine?
    ensures Downgrade(m, a).status.Fine? ==>
              && Downgrade(m, a + b).schema == Downgrade(m, a).schema + b
              && Downgrade(m, a).schema.Keys !! names
  {
    DowngradeExact(m, a + b);
    DowngradeExact(m, a);
    assert forall t :: t in Elements(m.tables) <==> t in m.tables;
    assert (a + b) - Elements(m.tables) == (a - Elements(m.tables)) + b;
  }

  lemma {:induction false} RenamesSplit(renames: seq<Rename>, a: Schema, b: Schema, names: set<string>)
    requires Within(renames, names) && a.Keys !! names && b.Keys <= names
    ensures RenameEach(a + b, renames).status == RenameEach(b, renames).status
    ensures RenameEach(a + b, renames).schema == a + RenameEach(b, renames).schema
    ensures RenameEach(b, renames).schema.Keys <= names
    decreases |renames|
  {
    if renames != [] {
      var Rename(source, target) := renames[0];
      var rest := renames[1..];
      assert forall k :: 0 <= k < |rest| ==> rest[k] == renames[k + 1];
      if source in b && target !in b {
        assert Renamed(a + b, source, target) == a + Renamed(b, source, target);
        RenamesSplit(rest, a, Renamed(b, source, target), names);
      }
    }
  }

  lemma {:induction false} UndoWithin(renames: seq<Rename>, names: set<string>)
    requires Within(renames, names)
    ensures Within(Undo(renames), names)
  {
  }

  /** The mixed run finishes exactly when the walk and the branch do, and leaves the sum of what
      they leave. */
  ghost predicate Splits(mixed: Outcome, main: Outcome, branch: Outcome, names: set<string>) {
    && (mixed.status.Fine? <==> main.status.Fine? && branch.status.Fine?)
    && (mixed.status.Fine? ==>
          && main.schema.Keys !! names && branch.schema.Keys <= names
          && mixed.schema == main.schema + branch.schema)
  }

  /** The run splits: on the names of the branch it is the branch alone, and on all others it is
      the walk alone. */
  lemma {:induction false} MixedRunSplits(chain: Chain, metadata: Schema, renames: seq<Rename>, a: Schema,
                                          b: Schema, names: set<string>, m: Mixed)
    requires WellFormed(chain) && Stays(|chain|, ChainPart(m)) && Within(renames, names)
    requires forall i :: 0 <= i < |chain| ==> Avoids(chain[i], names)
    requires a.Keys !! names && b.Keys <= names
    ensures Splits(MixedRun(chain, metadata, renames, a + b, m), Run(chain, metadata, a, ChainPart(m)),
                   TurnRun(renames, b, BranchPart(m)), names)
  {
    if !m.Begin? {
      MixedRunSplits(chain, metadata, renames, a, b, names, m.earlier);
      var main := Run(chain, metadata, a, ChainPart(m.earlier));
      var branch := TurnRun(renames, b, BranchPart(m.earlier));
      if m.Turn? {
        TurnRunSnoc(renames, b, BranchPart(m.earlier), m.up);
        if main.status.Fine? && branch.status.Fine? {
          TurnSplits(renames, m.up, main.schema, branch.schema, names);
        }
      } else if main.status.Fine? && branch.status.Fine? {
        RunStep(chain, metadata, a, ChainPart(m), main.schema);
        MigrateSplits(chain, metadata, m.move, Position(ChainPart(m.earlier)), main.schema, branch.schema, names);
      }
    }
  }

  lemma {:induction false} TurnSplits(renames: seq<Rename>, up: bool, a: Schema, b: Schema, names: set<string>)
    requires Within(renames, names) && a.Keys !! names && b.Keys <= names
    ensures Splits(TurnStep(renames, a + b, up), Outcome(a, Fine), TurnStep(renames, b, up), names)
  {
    UndoWithin(renames, names);
    RenamesSplit(if up then renames else Undo(renames), a, b, names);
  }

  lemma {:induction false} TurnRunSnoc(renames: seq<Rename>, schema: Schema, turns: seq<bool>, up: bool)
    ensures var reached := TurnRun(renames, schema, turns);
            TurnRun(renames, schema, turns + [up]) ==
            if reached.status.Raised? then reached else TurnStep(renames, reached.schema, up)
  {
    var more := turns + [up];
    assert more[..|more| - 1] == turns && more[|more| - 1] == up;
  }

  lemma {:induction false} MigrateSplits(chain: Chain, metadata: Schema, move: Step, p: nat, a: Schema, b: Schema,
                                         names: set<string>)
    requires WellFormed(chain) && if move.Up? then p < |chain| else 0 < p <= |chain|
    requires forall i :: 0 <= i < |chain| ==> Avoids(chain[i], names)
    requires a.Keys !! names && b.Keys <= names
    ensures Splits(StepFrom(chain, metadata, move, p, a + b), StepFrom(chain, metadata, move, p, a),
                   Outcome(b, Fine), names)
  {
    if move.Up? {
      UpgradeSplits(chain[p], metadata, a, b, names);
    } else {
      DowngradeSplits(chain[p - 1], a, b, names);
    }
  }

  /** Two runs with the same main-line steps and the same branch turns finish alike and leave the
      same schema, however the two are interleaved. */
  lemma {:induction false} InterleavingIrrelevant(chain: Chain, metadata: Schema, renames: seq<Rename>,
                                                  names: set<string>, start: Schema, m1: Mixed, m2: Mixed)
    requires WellFormed(chain) && Within(renames, names)
    requires forall i :: 0 <= i < |chain| ==> Avoids(chain[i], names)
    requires Stays(|chain|, ChainPart(m1)) && Stays(|chain|, ChainPart(m2))
    requires ChainPart(m1) == ChainPart(m2) && BranchPart(m1) == BranchPart(m2)
    ensures var r1, r2 := MixedRun(chain, metadata, renames, start, m1), MixedRun(chain, metadata, renames, start, m2);
            && (r1.status.Fine? <==> r2.status.Fine?)
            && (r1.status.Fine? ==> r1.schema == r2.schema)
  {
    var a, b := start - names, map t | t in start && t in names :: start[t];
    assert a + b == start;
    MixedRunSplits(chain, metadata, renames, a, b, names, m1);
    MixedRunSplits(chain, metadata, renames, a, b, names, m2);
  }

  // ---------------------------------------------------------------- what the branch does

  /** All names of the renames. */
  function BranchNames(renames: seq<Rename>): (names: set<string>)
    ensures Within(renames, names)
  {
    (set k | 0 <= k < |renames| :: renames[k].source) + (set k | 0 <= k < |renames| :: renames[k].target)
  }

  /** Every source is in the schema and no target is. */
  ghost predicate AllApplicable(schema: Schema, renames: seq<Rename>) {
    forall k :: 0 <= k < |renames| ==> renames[k].source in schema && renames[k].target !in schema
  }

  lemma {:induction false} RunSplits(chain: Chain, metadata: Schema, a: Schema, b: Schema, names: set<string>, w: Walk)
    requires WellFormed(chain) && Stays(|chain|, w)
    requires forall i :: 0 <= i < |chain| ==> Avoids(chain[i], names)
    requires a.Keys !! names && b.Keys <= names
    ensures Splits(Run(chain, metadata, a + b, w), Run(chain, metadata, a, w), Outcome(b, Fine), names)
  {
    if w.Then? {
      RunSplits(chain, metadata, a, b, names, w.before);
      var both, main := Run(chain, metadata, a + b, w.before), Run(chain, metadata, a, w.before);
      if main.status.Fine? {
        RunStep(chain, metadata, a + b, w, both.schema);
        RunStep(chain, metadata, a, w, main.schema);
        MigrateSplits(chain, metadata, w.step, Position(w.before), main.schema, b, names);
      }
    }
  }

  function Restrict(schema: Schema, names: set<string>): Schema {
    map t | t in schema && t in names :: schema[t]
  }

  /** Applied once, anywhere in a walk, the branch lets the run finish exactly when the walk alone
      does, every source is in the start schema and no target is. Then each target holds what its
      source held at the start, no source is left, and every other table is what the walk alone
      leaves. */
  lemma {:induction false} AppliedOnce(chain: Chain, metadata: Schema, renames: seq<Rename>, start: Schema, m: Mixed)
    requires WellFormed(chain) && Stays(|chain|, ChainPart(m)) && Separate(renames)
    requires forall i :: 0 <= i < |chain| ==> Avoids(chain[i], BranchNames(renames))
    requires BranchPart(m) == [true]
    ensures var mixed, alone := MixedRun(chain, metadata, renames, start, m), Run(chain, metadata, start, ChainPart(m));
            && (mixed.status.Fine? <==> alone.status.Fine? && AllApplicable(start, renames))
            && (mixed.status.Fine? ==>
                  && (forall k :: 0 <= k < |renames| ==>
                        && renames[k].source !in mixed.schema
                        && renames[k].source in start
                        && Lookup(mixed.schema, renames[k].target) == Some(start[renames[k].source]))
                  && (forall t :: t !in BranchNames(renames) ==>
                        Lookup(mixed.schema, t) == Lookup(alone.schema, t)))
  {
    var names := BranchNames(renames);
    var a, b := start - names, Restrict(start, names);
    assert a + b == start;
    MixedRunSplits(chain, metadata, renames, a, b, names, m);
    RunSplits(chain, metadata, a, b, names, ChainPart(m));
    OneTurn(renames, b);
    AppliedBeside(renames, start, MixedRun(chain, metadata, renames, start, m),
                  Run(chain, metadata, start, ChainPart(m)), Run(chain, metadata, a, ChainPart(m)));
  }

  lemma {:induction false} AppliedBeside(renames: seq<Rename>, start: Schema, mixed: Outcome, alone: Outcome,
                                         main: Outcome)
    requires Separate(renames)
    requires Splits(mixed, main, RenameEach(Restrict(start, BranchNames(renames)), renames), BranchNames(renames))
    requires Splits(alone, main, Outcome(Restrict(start, BranchNames(renames)), Fine), BranchNames(renames))
    ensures mixed.status.Fine? <==> alone.status.Fine? && AllApplicable(start, renames)
    ensures mixed.status.Fine? ==>
              && (forall k :: 0 <= k < |renames| ==>
                    && renames[k].source !in mixed.schema
                    && renames[k].source in start
                    && Lookup(mixed.schema, renames[k].target) == Some(start[renames[k].source]))
              && (forall t :: t !in BranchNames(renames) ==> Lookup(mixed.schema, t) == Lookup(alone.schema, t))
  {
    RestrictApplicable(start, renames);
    if mixed.status.Fine? {
      BranchMoves(renames, start, main.schema);
    }
  }

  /** What the renames make of the start's tables, next to the others. */
  lemma {:induction false} BranchMoves(renames: seq<Rename>, start: Schema, main: Schema)
    requires Separate(renames) && main.Keys !! BranchNames(renames)
    requires RenameEach(Restrict(start, BranchNames(renames)), renames).status.Fine?
    requires RenameEach(Restrict(start, BranchNames(renames)), renames).schema.Keys <= BranchNames(renames)
    ensures var after := main + RenameEach(Restrict(start, BranchNames(renames)), renames).schema;
            && (forall k :: 0 <= k < |renames| ==>
                  && renames[k].source !in after
                  && renames[k].source in start
                  && Lookup(after, renames[k].target) == Some(start[renames[k].source]))
            && (forall t :: t !in BranchNames(renames) ==>
                  Lookup(after, t) == Lookup(main + Restrict(start, BranchNames(renames)), t))
  {
    var b := Restrict(start, BranchNames(renames));
    forall k | 0 <= k < |renames|
      ensures OnlyTarget(RenameEach(b, renames).schema, renames[k])
      ensures Lookup(RenameEach(b, renames).schema, renames[k].target) == Lookup(b, renames[k].source)
    {
      RenamedLookup(b, renames, k);
      RenamedKeepsContents(b, renames, k);
    }
  }

  lemma {:induction false} OneTurn(renames: seq<Rename>, schema: Schema)
    ensures TurnRun(renames, schema, [true]) == RenameEach(schema, renames)
  {
    assert [true][..0] == [];
  }

  lemma {:induction false} RestrictApplicable(schema: Schema, renames: seq<Rename>)
    requires Separate(renames)
    ensures RenameEach(Restrict(schema, BranchNames(renames)), renames).status.Fine? <==>
            AllApplicable(schema, renames)
  {
    var b := Restrict(schema, BranchNames(renames));
    RenameSucceedsIff(b, renames);
    forall k | 0 <= k < |renames|
      ensures renames[k].source in b <==> renames[k].source in schema
      ensures renames[k].target in b <==> renames[k].target in schema
    {
    }
  }

  /** Applied and later undone, anywhere in a walk, the branch lets the run finish under the same
      condition, and then leaves exactly what the walk alone leaves. */
  lemma {:induction false} AppliedAndUndone(chain: Chain, metadata: Schema, renames: seq<Rename>, start: Schema,
                                            m: Mixed)
    requires WellFormed(chain) && Stays(|chain|, ChainPart(m)) && Separate(renames)
    requires forall i :: 0 <= i < |chain| ==> Avoids(chain[i], BranchNames(renames))
    requires BranchPart(m) == [true, false]
    ensures var mixed, alone := MixedRun(chain, metadata, renames, start, m), Run(chain, metadata, start, ChainPart(m));
            && (mixed.status.Fine? <==> alone.status.Fine? && AllApplicable(start, renames))
            && (mixed.status.Fine? ==> mixed.schema == alone.schema)
  {
    var names := BranchNames(renames);
    var a, b := start - names, Restrict(start, names);
    assert a + b == start;
    MixedRunSplits(chain, metadata, renames, a, b, names, m);
    RunSplits(chain, metadata, a, b, names, ChainPart(m));
    TurnAndBack(renames, b);
    RestrictApplicable(start, renames);
  }

  lemma {:induction false} TurnAndBack(renames: seq<Rename>, schema: Schema)
    ensures var back := TurnRun(renames, schema, [true, false]);
            && (back.status.Fine? <==> RenameEach(schema, renames).status.Fine?)
            && (back.status.Fine? ==> back.schema == schema)
  {
    assert [true, false][..1] == [true];
    OneTurn(renames, schema);
    if RenameEach(schema, renames).status.Fine? {
      RenameRoundTrip(schema, renames);
    }
  }
}
