/** The two migrations that rename the SRE tables: 0004_sre_rename_tables, which renames
    unconditionally, and 0044_merge_sre_rename, which renames only where it applies. */
module Renames {
  import opened Schemas

  const SRE_RENAMES := [
    Rename("sre_service_dependencies", "sre_dependencies"),
    Rename("sre_maintenance_windows", "sre_maintenance"),
    Rename("sre_capacity_metrics", "sre_capacity"),
    Rename("sre_backup_jobs", "sre_backups")
  ]

  /** The renames that undo `renames`: each one turned round, last first. */
  function Undo(renames: seq<Rename>): (r: seq<Rename>)
    ensures |r| == |renames|
    ensures forall k :: 0 <= k < |r| ==>
              r[k] == Rename(renames[|r| - 1 - k].target, renames[|r| - 1 - k].source)
  {
    if renames == [] then []
    else Undo(renames[1..]) + [Rename(renames[0].target, renames[0].source)]
  }

  lemma {:induction false} RenameEachConcat(schema: Schema, xs: seq<Rename>, ys: seq<Rename>)
    requires RenameEach(schema, xs).status.Fine?
    ensures RenameEach(schema, xs + ys) == RenameEach(RenameEach(schema, xs).schema, ys)
    decreases |xs|
  {
    if xs == [] {
      assert xs + ys == ys;
    } else {
      assert (xs + ys)[1..] == xs[1..] + ys;
      RenameEachConcat(Renamed(schema, xs[0].source, xs[0].target), xs[1..], ys);
    }
  }

  /** Whenever a list of unconditional renames succeeds, undoing it succeeds and restores the
      exact map from names to contents. */
  lemma {:induction false} RenameRoundTrip(schema: Schema, renames: seq<Rename>)
    requires RenameEach(schema, renames).status.Fine?
    ensures RenameEach(RenameEach(schema, renames).schema, Undo(renames)) == Outcome(schema, Fine)
    decreases |renames|
  {
    if renames != [] {
      var Rename(source, target) := renames[0];
      var next := Renamed(schema, source, target);
      RenameRoundTrip(next, renames[1..]);
      var last := [Rename(target, source)];
      RenameEachConcat(RenameEach(next, renames[1..]).schema, Undo(renames[1..]), last);
      assert last[1..] == [];
      assert Renamed(next, target, source) == schema;
    }
  }

  /** Sources distinct, targets distinct, and no target among the sources. */
  ghost predicate Separate(renames: seq<Rename>) {
    && (forall i, j :: 0 <= i < j < |renames| ==>
          renames[i].source != renames[j].source && renames[i].target != renames[j].target)
    && (forall i, j :: 0 <= i < |renames| && 0 <= j < |renames| ==> renames[i].source != renames[j].target)
  }

  /** Separate renames succeed exactly when every source is there and no target is. */
  lemma {:induction false} RenameSucceedsIff(schema: Schema, renames: seq<Rename>)
    requires Separate(renames)
    ensures RenameEach(schema, renames).status.Fine? <==>
            forall k :: 0 <= k < |renames| ==> renames[k].source in schema && renames[k].target !in schema
    decreases |renames|
  {
    if renames != [] {
      var Rename(source, target) := renames[0];
      var rest := renames[1..];
      assert forall k :: 0 <= k < |rest| ==> rest[k] == renames[k + 1];
      assert Separate(rest);
      if source in schema && target !in schema {
        var next := Renamed(schema, source, target);
        RenameSucceedsIff(next, rest);
        forall k | 0 <= k < |rest|
          ensures rest[k].source in next <==> rest[k].source in schema
          ensures rest[k].target in next <==> rest[k].target in schema
        {
        }
        if forall k :: 0 <= k < |rest| ==> rest[k].source in schema && rest[k].target !in schema {
          forall k | 0 <= k < |renames|
            ensures renames[k].source in schema && renames[k].target !in schema
          {
            assert k > 0 ==> renames[k] == rest[k - 1];
          }
        }
      }
    }
  }

  // ---------------------------------------------------------------- 0044_merge_sre_rename

  /** The rename has its source in the schema and its target free. */
  predicate Applicable(schema: Schema, r: Rename) {
    r.source in schema && r.target !in schema
  }

  /** The snapshot tells the truth about every name in the renames. */
  ghost predicate Covers(existing: set<string>, schema: Schema, renames: seq<Rename>) {
    forall k :: 0 <= k < |renames| ==>
                  && (renames[k].source in existing <==> renames[k].source in schema)
                  && (renames[k].target in existing <==> renames[k].target in schema)
  }

  /** Separate guarded renames act independently: each applicable one moves its table, and
      nothing else changes. */
  lemma {:induction false} GuardedLookup(schema: Schema, existing: set<string>, renames: seq<Rename>)
    requires Separate(renames) && Covers(existing, schema, renames)
    ensures var after := RenameGuarded(schema, existing, renames);
            && (forall k :: 0 <= k < |renames| ==>
                  && Lookup(after, renames[k].source) ==
                     (if Applicable(schema, renames[k]) then None else Lookup(schema, renames[k].source))
                  && Lookup(after, renames[k].target) ==
                     (if Applicable(schema, renames[k]) then Lookup(schema, renames[k].source)
                      else Lookup(schema, renames[k].target)))
            && (forall t :: (forall k :: 0 <= k < |renames| ==> t != renames[k].source && t != renames[k].target) ==>
                  Lookup(after, t) == Lookup(schema, t))
    decreases |renames|
  {
    if renames != [] {
      var first, rest := renames[0], renames[1..];
      var next := if Applicable(schema, first) then Renamed(schema, first.source, first.target) else schema;
      assert forall k :: 0 <= k < |rest| ==> rest[k] == renames[k + 1];
      forall k | 0 <= k < |rest|
        ensures Lookup(next, rest[k].source) == Lookup(schema, rest[k].source)
        ensures Lookup(next, rest[k].target) == Lookup(schema, rest[k].target)
      {
        assert renames[0].source != renames[k + 1].source && renames[0].target != renames[k + 1].target;
        assert renames[0].source != renames[k + 1].target && renames[k + 1].source != renames[0].target;
      }
      GuardedLookup(next, existing, rest);
      var after := RenameGuarded(schema, existing, renames);
      assert after == RenameGuarded(next, existing, rest);
      forall k | 0 <= k < |rest|
        ensures first.source != rest[k].source && first.source != rest[k].target
        ensures first.target != rest[k].source && first.target != rest[k].target
      {
        assert renames[0].source != renames[k + 1].source && renames[0].target != renames[k + 1].target;
        assert renames[0].source != renames[k + 1].target && renames[k + 1].source != renames[0].target;
      }
      assert Lookup(after, first.source) == Lookup(next, first.source);
      assert Lookup(after, first.target) == Lookup(next, first.target);
      forall k | 0 < k < |renames|
        ensures Applicable(next, renames[k]) <==> Applicable(schema, renames[k])
        ensures renames[k] == rest[k - 1]
      {
        assert Lookup(next, rest[k - 1].source) == Lookup(schema, rest[k - 1].source);
      }
    }
  }

  function GuardedUp(schema: Schema, renames: seq<Rename>): Schema {
    RenameGuarded(schema, schema.Keys, renames)
  }

  function GuardedDown(schema: Schema, renames: seq<Rename>): Schema {
    RenameGuarded(schema, schema.Keys, Undo(renames))
  }

  /** Of the two names of the rename, only the target is in the schema. */
  ghost predicate OnlyTarget(schema: Schema, r: Rename) {
    r.target in schema && r.source !in schema
  }

  lemma {:induction false} UndoIsSeparate(renames: seq<Rename>)
    requires Separate(renames)
    ensures Separate(Undo(renames))
  {
  }

  /** One pair of names before and after going up and down again. */
  lemma {:induction false} GuardedPair(schema: Schema, renames: seq<Rename>, k: nat)
    requires Separate(renames) && k < |renames|
    ensures var back := GuardedDown(GuardedUp(schema, renames), renames);
            var r := renames[k];
            && Lookup(back, r.source) ==
               (if OnlyTarget(schema, r) then Lookup(schema, r.target) else Lookup(schema, r.source))
            && Lookup(back, r.target) ==
               (if OnlyTarget(schema, r) then None else Lookup(schema, r.target))
  {
    var up := GuardedUp(schema, renames);
    GuardedLookup(schema, schema.Keys, renames);
    UndoIsSeparate(renames);
    GuardedLookup(up, up.Keys, Undo(renames));
    var turned := Undo(renames)[|renames| - 1 - k];
    assert turned == Rename(renames[k].target, renames[k].source);
    assert Lookup(up, renames[k].source) ==
        if Applicable(schema, renames[k]) then None else Lookup(schema, renames[k].source);
  }

  lemma {:induction false} GuardedElsewhere(schema: Schema, renames: seq<Rename>, t: string)
    requires Separate(renames)
    requires forall k :: 0 <= k < |renames| ==> t != renames[k].source && t != renames[k].target
    ensures Lookup(GuardedDown(GuardedUp(schema, renames), renames), t) == Lookup(schema, t)
  {
    var up := GuardedUp(schema, renames);
    GuardedLookup(schema, schema.Keys, renames);
    UndoIsSeparate(renames);
    GuardedLookup(up, up.Keys, Undo(renames));
  }

  /** Guarded renames, applied and undone, restore the schema if and only if no pair starts with
      only its target there: such a pair is skipped on the way up, yet renamed on the way down. */
  lemma {:induction false} GuardedRoundTripIff(schema: Schema, renames: seq<Rename>)
    requires Separate(renames)
    ensures GuardedDown(GuardedUp(schema, renames), renames) == schema <==>
            forall k :: 0 <= k < |renames| ==> !OnlyTarget(schema, renames[k])
  {
    var back := GuardedDown(GuardedUp(schema, renames), renames);
    if forall k :: 0 <= k < |renames| ==> !OnlyTarget(schema, renames[k]) {
      forall t
        ensures Lookup(back, t) == Lookup(schema, t)
      {
        if k :| 0 <= k < |renames| && (t == renames[k].source || t == renames[k].target) {
          GuardedPair(schema, renames, k);
        } else {
          GuardedElsewhere(schema, renames, t);
        }
      }
      SameLookups(back, schema);
    } else {
      var k :| 0 <= k < |renames| && OnlyTarget(schema, renames[k]);
      GuardedPair(schema, renames, k);
      assert renames[k].target !in back;
    }
  }

  /** Guarded renames are idempotent on the way up. */
  lemma {:induction false} GuardedUpTwice(schema: Schema, renames: seq<Rename>)
    requires Separate(renames)
    ensures GuardedUp(GuardedUp(schema, renames), renames) == GuardedUp(schema, renames)
  {
    var up := GuardedUp(schema, renames);
    var again := GuardedUp(up, renames);
    GuardedLookup(schema, schema.Keys, renames);
    GuardedLookup(up, up.Keys, renames);
    forall t
      ensures Lookup(again, t) == Lookup(up, t)
    {
      if k :| 0 <= k < |renames| && (t == renames[k].source || t == renames[k].target) {
        assert !Applicable(up, renames[k]) by {
          assert Lookup(up, renames[k].source) ==
                 if Applicable(schema, renames[k]) then None else Lookup(schema, renames[k].source);
        }
      }
    }
    SameLookups(again, up);
  }

  // ---------------------------------------------------------------- the two together

  lemma {:induction false} SreRenamesAreSeparate()
    ensures Separate(SRE_RENAMES)
  {
    SreNameLengths();
    SreSourcesAreNoTargets();
  }

  lemma {:induction false} SreSourcesAreNoTargets()
    ensures forall i, j :: 0 <= i < |SRE_RENAMES| && 0 <= j < |SRE_RENAMES| ==>
                             SRE_RENAMES[i].source != SRE_RENAMES[j].target
  {
    SreNameLengths();
    assert SRE_RENAMES[3].source[4] == 'b' && SRE_RENAMES[1].target[4] == 'm';
  }

  lemma {:induction false} SreNameLengths()
    ensures forall k :: 0 <= k < |SRE_RENAMES| ==> |SRE_RENAMES[k].source| == [24, 23, 20, 15][k]
    ensures forall k :: 0 <= k < |SRE_RENAMES| ==> |SRE_RENAMES[k].target| == [16, 15, 12, 11][k]
  {
  }

  /** The upgrade of 0044_merge_sre_rename may run twice. */
  lemma {:induction false} SreMergeTwice(schema: Schema)
    ensures GuardedUp(GuardedUp(schema, SRE_RENAMES), SRE_RENAMES) == GuardedUp(schema, SRE_RENAMES)
  {
    SreRenamesAreSeparate();
    GuardedUpTwice(schema, SRE_RENAMES);
  }

  /** 0004_sre_rename_tables applies exactly when its four sources exist and its four targets
      do not, and its downgrade then restores the exact schema. */
  lemma {:induction false} SreRoundTrip(schema: Schema)
    ensures var up := RenameEach(schema, SRE_RENAMES);
            && (up.status.Fine? <==>
                  forall k :: 0 <= k < |SRE_RENAMES| ==> Applicable(schema, SRE_RENAMES[k]))
            && (up.status.Fine? ==> RenameEach(up.schema, Undo(SRE_RENAMES)) == Outcome(schema, Fine))
  {
    SreRenamesAreSeparate();
    RenameSucceedsIff(schema, SRE_RENAMES);
    if RenameEach(schema, SRE_RENAMES).status.Fine? {
      RenameRoundTrip(schema, SRE_RENAMES);
    }
  }

  /** After a successful list of separate renames, every pair has only its target left. */
  lemma {:induction false} RenamedLookup(schema: Schema, renames: seq<Rename>, k: nat)
    requires Separate(renames) && RenameEach(schema, renames).status.Fine? && k < |renames|
    ensures OnlyTarget(RenameEach(schema, renames).schema, renames[k])
    decreases |renames|
  {
    var first, rest := renames[0], renames[1..];
    var next := Renamed(schema, first.source, first.target);
    assert forall j :: 0 <= j < |rest| ==> rest[j] == renames[j + 1];
    assert Separate(rest);
    if k > 0 {
      RenamedLookup(next, rest, k - 1);
    } else {
      Untouched(next, rest, first.source);
      Untouched(next, rest, first.target);
    }
  }

  lemma {:induction false} Untouched(schema: Schema, renames: seq<Rename>, t: string)
    requires RenameEach(schema, renames).status.Fine?
    requires forall j :: 0 <= j < |renames| ==> t != renames[j].source && t != renames[j].target
    ensures Lookup(RenameEach(schema, renames).schema, t) == Lookup(schema, t)
    decreases |renames|
  {
    if renames != [] {
      assert forall j :: 0 <= j < |renames[1..]| ==> renames[1..][j] == renames[j + 1];
      Untouched(Renamed(schema, renames[0].source, renames[0].target), renames[1..], t);
    }
  }

  /** Whenever unconditional renames have run, the guarded renames that follow them change
      nothing on the way up, and rename every table back on the way down. After that the
      downgrade of the unconditional renames cannot run: its tables are gone already. */
  lemma {:induction false} MergeUndoesTooMuch(schema: Schema, renames: seq<Rename>)
    requires Separate(renames) && renames != [] && RenameEach(schema, renames).status.Fine?
    ensures var renamed := RenameEach(schema, renames).schema;
            var merged := GuardedUp(renamed, renames);
            var unmerged := GuardedDown(merged, renames);
            && merged == renamed
            && unmerged == schema
            && RenameEach(unmerged, Undo(renames)) ==
               Outcome(schema, Raised(NoSuchTable(renames[|renames| - 1].target)))
  {
    var renamed := RenameEach(schema, renames).schema;
    var merged := GuardedUp(renamed, renames);
    var unmerged := GuardedDown(merged, renames);
    RenameSucceedsIff(schema, renames);
    GuardedLookup(renamed, renamed.Keys, renames);
    forall t
      ensures Lookup(merged, t) == Lookup(renamed, t)
      ensures Lookup(unmerged, t) == Lookup(schema, t)
    {
      if k :| 0 <= k < |renames| && (t == renames[k].source || t == renames[k].target) {
        RenamedLookup(schema, renames, k);
        GuardedPair(renamed, renames, k);
        RenamedKeepsContents(schema, renames, k);
      } else {
        GuardedElsewhere(renamed, renames, t);
        Untouched(schema, renames, t);
      }
    }
    SameLookups(merged, renamed);
    SameLookups(unmerged, schema);
    assert Undo(renames)[0] == Rename(renames[|renames| - 1].target, renames[|renames| - 1].source);
  }

  lemma {:induction false} RenamedKeepsContents(schema: Schema, renames: seq<Rename>, k: nat)
    requires Separate(renames) && RenameEach(schema, renames).status.Fine? && k < |renames|
    ensures Lookup(RenameEach(schema, renames).schema, renames[k].target) == Lookup(schema, renames[k].source)
    decreases |renames|
  {
    var first, rest := renames[0], renames[1..];
    var next := Renamed(schema, first.source, first.target);
    assert forall j :: 0 <= j < |rest| ==> rest[j] == renames[j + 1];
    assert Separate(rest);
    if k > 0 {
      RenamedKeepsContents(next, rest, k - 1);
    } else {
      Untouched(next, rest, first.target);
    }
  }

  /** On every schema that 0004_sre_rename_tables accepts: applying it, then applying and undoing
      0044_merge_sre_rename, brings the old names back, and undoing 0004_sre_rename_tables then
      raises on `sre_backups`. */
  lemma {:induction false} SreMergeUndoesTooMuch(schema: Schema)
    requires forall k :: 0 <= k < |SRE_RENAMES| ==> Applicable(schema, SRE_RENAMES[k])
    ensures var renamed := RenameEach(schema, SRE_RENAMES);
            var unmerged := GuardedDown(GuardedUp(renamed.schema, SRE_RENAMES), SRE_RENAMES);
            && renamed.status.Fine?
            && unmerged == schema
            && RenameEach(unmerged, Undo(SRE_RENAMES)) == Outcome(schema, Raised(NoSuchTable("sre_backups")))
  {
    SreRenamesAreSeparate();
    SreRoundTrip(schema);
    MergeUndoesTooMuch(schema, SRE_RENAMES);
  }
}
