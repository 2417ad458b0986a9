/** The readiness verdict: how the migration scan, the route inventory and the posture flags
    combine, and what a status other than BLOCKED guarantees. */
module Readiness {
  import opened Sequences
  import opened Order
  import opened PathNames
  import opened Routes
  import Graph = RevisionGraph
  import Inventory

  datatype EventCounts = EventCounts(total: nat, uniqueNames: nat)

  datatype Blocker =
    | MigrationHeads(heads: seq<string>)
    | DuplicateRoutes(first: seq<(string, string)>)
    | DoubledPrefixes(paths: seq<string>)
    | DuplicateEventNames

  datatype Warning = UncommittedChanges | DebugEnabled

  datatype Status = Ready | ReadyWithWarnings | Blocked

  datatype Verdict = Verdict(
    migration: Graph.Report,
    totalRoutes: nat,
    blockers: seq<Blocker>,
    warnings: seq<Warning>,
    status: Status)

  function AtMostFive<T>(s: seq<T>): seq<T> {
    if |s| <= 5 then s else s[..5]
  }

  function When<T>(condition: bool, item: T): seq<T> {
    if condition then [item] else []
  }

  function BlockersOf(migration: Graph.Report, routes: Inventory.Report, events: EventCounts): seq<Blocker> {
    HeadBlockers(migration) + DuplicateBlockers(routes) + DoubledBlockers(routes) + EventBlockers(events)
  }

  function EventBlockers(events: EventCounts): seq<Blocker> {
    When(events.total != events.uniqueNames, DuplicateEventNames)
  }

  function HeadBlockers(migration: Graph.Report): seq<Blocker> {
    When(!migration.singleHead, MigrationHeads(migration.heads))
  }

  function DuplicateBlockers(routes: Inventory.Report): seq<Blocker> {
    When(routes.duplicates != map[], DuplicateRoutes(AtMostFive(SortedPairs(routes.duplicates.Keys))))
  }

  function DoubledBlockers(routes: Inventory.Report): seq<Blocker> {
    When(routes.doubled != [], DoubledPrefixes(AtMostFive(routes.doubled)))
  }

  function WarningsOf(clean: bool, debug: bool): seq<Warning> {
    When(!clean, UncommittedChanges) + When(debug, DebugEnabled)
  }

  function StatusOf(blockers: seq<Blocker>, warnings: seq<Warning>): Status {
    if blockers != [] then Blocked else if warnings != [] then ReadyWithWarnings else Ready
  }

  /** Each blocker is there exactly when its test says so, with the data it reports, and they come
      in the order heads, duplicates, doubled prefixes, event names. */
  ghost predicate NamesBlockers(blockers: seq<Blocker>, migration: Graph.Report, routes: Inventory.Report,
                                events: EventCounts) {
    && (forall heads :: MigrationHeads(heads) in blockers <==> !migration.singleHead && heads == migration.heads)
    && (forall first :: DuplicateRoutes(first) in blockers <==>
                          routes.duplicates != map[] && FirstFiveKeys(first, routes.duplicates.Keys))
    && (forall paths :: DoubledPrefixes(paths) in blockers <==>
                          routes.doubled != [] && FirstFive(paths, routes.doubled))
    && (DuplicateEventNames in blockers <==> events.total != events.uniqueNames)
    && (forall i, j :: 0 <= i < j < |blockers| ==> Place(blockers[i]) < Place(blockers[j]))
  }

  function Place(blocker: Blocker): nat {
    match blocker
    case MigrationHeads(_) => 0
    case DuplicateRoutes(_) => 1
    case DoubledPrefixes(_) => 2
    case DuplicateEventNames => 3
  }

  /** All of the sequence, or its first five elements when there are more. */
  predicate FirstFive<T(==)>(first: seq<T>, all: seq<T>) {
    first <= all && (|first| == |all| < 5 || |first| == 5)
  }

  /** The first five keys by method and then by path, or all of them. */
  ghost predicate FirstFiveKeys(first: seq<(string, string)>, keys: set<(string, string)>) {
    exists all :: Elements(all) == keys && SortedByMethod(all) && FirstFive(first, all)
  }

  predicate SortedByMethod(all: seq<(string, string)>) {
    forall i, j :: 0 <= i < j < |all| ==>
                     StringLess(all[i].0, all[j].0) || (all[i].0 == all[j].0 && StringLess(all[i].1, all[j].1))
  }

  lemma {:induction false} FirstFiveKeysMeans(first: seq<(string, string)>, keys: set<(string, string)>)
    ensures FirstFiveKeys(first, keys) <==> first == AtMostFive(SortedPairs(keys))
  {
    var sorted := SortedPairs(keys);
    assert Ascending(sorted, PairLess) && SortedByMethod(sorted);
    if all :| Elements(all) == keys && SortedByMethod(all) && FirstFive(first, all) {
      assert Ascending(all, PairLess);
      PairsAreOrdered();
      AscendingIsUnique(all, sorted, PairLess);
    }
    assert FirstFive(AtMostFive(sorted), sorted);
  }

  lemma {:induction false} FirstFiveMeans<T>(first: seq<T>, all: seq<T>)
    ensures FirstFive(first, all) <==> first == AtMostFive(all)
  {
  }

  /** At most one blocker of each kind, one kind after the other. */
  lemma {:induction false} InOrder(a: seq<Blocker>, b: seq<Blocker>, c: seq<Blocker>, d: seq<Blocker>)
    requires |a| <= 1 && |b| <= 1 && |c| <= 1 && |d| <= 1
    requires forall x :: x in a ==> Place(x) == 0
    requires forall x :: x in b ==> Place(x) == 1
    requires forall x :: x in c ==> Place(x) == 2
    requires forall x :: x in d ==> Place(x) == 3
    ensures var all := a + b + c + d;
            && (forall x :: x in all <==> x in a || x in b || x in c || x in d)
            && (forall i, j :: 0 <= i < j < |all| ==> Place(all[i]) < Place(all[j]))
  {
    assert forall x :: x in a + b + c <==> x in a || x in b || x in c;
  }

  lemma {:induction false} DuplicateBlockersMean(routes: Inventory.Report)
    ensures |DuplicateBlockers(routes)| <= 1 && forall x :: x in DuplicateBlockers(routes) ==> Place(x) == 1
    ensures forall first :: DuplicateRoutes(first) in DuplicateBlockers(routes) <==>
                              routes.duplicates != map[] && FirstFiveKeys(first, routes.duplicates.Keys)
  {
    forall first
      ensures FirstFiveKeys(first, routes.duplicates.Keys) <==>
              first == AtMostFive(SortedPairs(routes.duplicates.Keys))
    {
      FirstFiveKeysMeans(first, routes.duplicates.Keys);
    }
  }

  lemma {:induction false} DoubledBlockersMean(routes: Inventory.Report)
    ensures |DoubledBlockers(routes)| <= 1 && forall x :: x in DoubledBlockers(routes) ==> Place(x) == 2
    ensures forall paths :: DoubledPrefixes(paths) in DoubledBlockers(routes) <==>
                              routes.doubled != [] && FirstFive(paths, routes.doubled)
  {
    forall paths
      ensures FirstFive(paths, routes.doubled) <==> paths == AtMostFive(routes.doubled)
    {
      FirstFiveMeans(paths, routes.doubled);
    }
  }

  lemma {:induction false} HeadBlockersMean(migration: Graph.Report)
    ensures |HeadBlockers(migration)| <= 1 && forall x :: x in HeadBlockers(migration) ==> Place(x) == 0
    ensures forall heads :: MigrationHeads(heads) in HeadBlockers(migration) <==>
                              !migration.singleHead && heads == migration.heads
  {
  }

  lemma {:induction false} EventBlockersMean(events: EventCounts)
    ensures |EventBlockers(events)| <= 1 && forall x :: x in EventBlockers(events) ==> Place(x) == 3
    ensures DuplicateEventNames in EventBlockers(events) <==> events.total != events.uniqueNames
  {
  }

  lemma {:induction false} BlockersExact(migration: Graph.Report, routes: Inventory.Report, events: EventCounts)
    ensures NamesBlockers(BlockersOf(migration, routes, events), migration, routes, events)
  {
    HeadBlockersMean(migration);
    DuplicateBlockersMean(routes);
    DoubledBlockersMean(routes);
    EventBlockersMean(events);
    Joined(HeadBlockers(migration), DuplicateBlockers(routes), DoubledBlockers(routes), EventBlockers(events),
           migration, routes, events);
  }

  lemma {:induction false} Joined(a: seq<Blocker>, b: seq<Blocker>, c: seq<Blocker>, d: seq<Blocker>,
                                  migration: Graph.Report, routes: Inventory.Report, events: EventCounts)
    requires |a| <= 1 && |b| <= 1 && |c| <= 1 && |d| <= 1
    requires forall x :: x in a ==> Place(x) == 0
    requires forall x :: x in b ==> Place(x) == 1
    requires forall x :: x in c ==> Place(x) == 2
    requires forall x :: x in d ==> Place(x) == 3
    requires forall heads :: MigrationHeads(heads) in a <==> !migration.singleHead && heads == migration.heads
    requires forall first :: DuplicateRoutes(first) in b <==>
                               routes.duplicates != map[] && FirstFiveKeys(first, routes.duplicates.Keys)
    requires forall paths :: DoubledPrefixes(paths) in c <==> routes.doubled != [] && FirstFive(paths, routes.doubled)
    requires DuplicateEventNames in d <==> events.total != events.uniqueNames
    ensures NamesBlockers(a + b + c + d, migration, routes, events)
  {
    InOrder(a, b, c, d);
    var all := a + b + c + d;
    forall x
      ensures x in all <==> x in (match Place(x) case 0 => a case 1 => b case 2 => c case _ => d)
    {
    }
  }

  /** The blockers are appended one after the other, in this order. */
  method CollectBlockers(migration: Graph.Report, routes: Inventory.Report, events: EventCounts)
    returns (blockers: seq<Blocker>)
    ensures blockers == BlockersOf(migration, routes, events)
    ensures NamesBlockers(blockers, migration, routes, events)
  {
    blockers := [];
    if !migration.singleHead {
      blockers := blockers + [MigrationHeads(migration.heads)];
    }
    assert blockers == HeadBlockers(migration);
    if routes.duplicates != map[] {
      blockers := blockers + [DuplicateRoutes(AtMostFive(SortedPairs(routes.duplicates.Keys)))];
    }
    assert blockers == HeadBlockers(migration) + DuplicateBlockers(routes);
    if routes.doubled != [] {
      blockers := blockers + [DoubledPrefixes(AtMostFive(routes.doubled))];
    }
    assert blockers == HeadBlockers(migration) + DuplicateBlockers(routes) + DoubledBlockers(routes);
    if events.total != events.uniqueNames {
      blockers := blockers + [DuplicateEventNames];
    }
    BlockersExact(migration, routes, events);
  }

  method CollectWarnings(clean: bool, debug: bool) returns (warnings: seq<Warning>)
    ensures UncommittedChanges in warnings <==> !clean
    ensures DebugEnabled in warnings <==> debug
    ensures warnings == [] <==> clean && !debug
    ensures !clean && debug ==> warnings == [UncommittedChanges, DebugEnabled]
    ensures warnings == WarningsOf(clean, debug)
  {
    warnings := [];
    if !clean {
      warnings := warnings + [UncommittedChanges];
    }
    if debug {
      warnings := warnings + [DebugEnabled];
    }
  }

  method CollectReadiness(files: seq<Graph.ScannedFile>, router: Router, events: EventCounts, clean: bool, debug: bool)
    returns (v: Verdict)
    ensures v.migration == Graph.ReportOf(Graph.GraphOf(files))
    ensures v.totalRoutes == |Inventory.ApiRoutes(Flatten(router.routes, ""))|
    ensures v.blockers == BlockersOf(v.migration, Inventory.ReportOf(router), events)
    ensures v.warnings == WarningsOf(clean, debug)
    ensures v.status == StatusOf(v.blockers, v.warnings)
    ensures v.status.Ready? <==> NothingBlocks(files, router, events) && clean && !debug
    ensures v.status.ReadyWithWarnings? <==> NothingBlocks(files, router, events) && (!clean || debug)
    ensures v.status.Blocked? <==> !NothingBlocks(files, router, events)
  {
    var migration := Graph.MigrationHead(files);
    var routes := Inventory.RouteInventory(router);
    var blockers := CollectBlockers(migration, routes, events);
    var warnings := CollectWarnings(clean, debug);
    var status := if blockers != [] then Blocked else if warnings != [] then ReadyWithWarnings else Ready;
    v := Verdict(migration, routes.total, blockers, warnings, status);
    UnblockedIff(files, router, events);
  }

  /** There is exactly one head, the API routes are sound and the event names are unique. */
  ghost predicate NothingBlocks(files: seq<Graph.ScannedFile>, router: Router, events: EventCounts) {
    && (exists h :: Graph.Heads(Graph.GraphOf(files)) == {h})
    && RoutesAreSound(Inventory.ApiRoutes(Flatten(router.routes, "")))
    && events.total == events.uniqueNames
  }

  /** No method and canonical path is served by two API routes, and no API path is doubled. */
  ghost predicate RoutesAreSound(routes: seq<Served>) {
    && (forall key :: !Inventory.ServedTwice(routes, key))
    && (forall i :: 0 <= i < |routes| ==> !Inventory.RepeatsPrefix(routes[i].path))
  }

  /** The inputs block nothing if and only if there is exactly one head, the API routes are sound
      and the event names are unique. */
  lemma {:induction false} UnblockedIff(files: seq<Graph.ScannedFile>, router: Router, events: EventCounts)
    ensures BlockersOf(Graph.ReportOf(Graph.GraphOf(files)), Inventory.ReportOf(router), events) == [] <==>
            NothingBlocks(files, router, events)
  {
    Graph.SingleHeadMeans(Graph.GraphOf(files));
    SoundIffNothingReported(router);
  }

  /** The same for declared routers whose includes record accumulated prefixes, in terms of the
      full paths that the declaration promises. */
  lemma {:induction false} DeclaredUnblockedIff(files: seq<Graph.ScannedFile>, d: Declaration, events: EventCounts)
    ensures var routes := Inventory.ReportOf(RouterOf(Accumulated(d, "")));
            BlockersOf(Graph.ReportOf(Graph.GraphOf(files)), routes, events) == [] <==>
            && (exists h :: Graph.Heads(Graph.GraphOf(files)) == {h})
            && RoutesAreSound(Inventory.ApiRoutes(Endpoints(d)))
            && events.total == events.uniqueNames
  {
    AccumulatedIsFull(d);
    UnblockedIff(files, RouterOf(Accumulated(d, "")), events);
  }

  lemma {:induction false} SoundIffNothingReported(router: Router)
    ensures var report := Inventory.ReportOf(router);
            DuplicateBlockers(report) == [] && DoubledBlockers(report) == [] <==>
            RoutesAreSound(Inventory.ApiRoutes(Flatten(router.routes, "")))
  {
    var routes := Inventory.ApiRoutes(Flatten(router.routes, ""));
    var report := Inventory.ReportOf(router);
    NoneDuplicate(router);
    NoneDoubled(routes, report.doubled);
  }

  lemma {:induction false} NoneDuplicate(router: Router)
    ensures Inventory.ReportOf(router).duplicates == map[] <==>
            forall key :: !Inventory.ServedTwice(Inventory.ApiRoutes(Flatten(router.routes, "")), key)
  {
    var duplicates := Inventory.ReportOf(router).duplicates;
    if duplicates == map[] {
      forall key
        ensures !Inventory.ServedTwice(Inventory.ApiRoutes(Flatten(router.routes, "")), key)
      {
        Inventory.DuplicatesExact(router, key);
      }
    } else {
      var key :| key in duplicates;
      Inventory.DuplicatesExact(router, key);
    }
  }

  lemma {:induction false} NoneDoubled(routes: seq<Served>, doubled: seq<string>)
    requires Elements(doubled) == Inventory.DoubledPaths(routes)
    ensures doubled == [] <==> forall i :: 0 <= i < |routes| ==> !Inventory.RepeatsPrefix(routes[i].path)
  {
    Inventory.DoubledPathsMean(routes);
    if doubled == [] {
      forall i | 0 <= i < |routes|
        ensures !Inventory.RepeatsPrefix(routes[i].path)
      {
        assert Inventory.IsListed(routes, routes[i].path);
        assert routes[i].path !in Elements(doubled);
      }
    } else {
      assert doubled[0] in Elements(doubled);
    }
  }

  /** What a status other than BLOCKED guarantees: the API routes are sound, and there is one head,
      of which every migration is an ancestor (or the head itself) if and only if no cycle is a
      trap. On an acyclic graph there is none. */
  lemma {:induction false} VerdictIsSound(files: seq<Graph.ScannedFile>, router: Router, events: EventCounts,
                                          warnings: seq<Warning>)
    requires var migration := Graph.ReportOf(Graph.GraphOf(files));
             StatusOf(BlockersOf(migration, Inventory.ReportOf(router), events), warnings) != Blocked
    ensures var g := Graph.GraphOf(files);
            var head := Graph.ReportOf(g).head;
            && Graph.Heads(g) == {head}
            && ((forall r :: r in g ==> Graph.Reaches(g, r, head)) <==> Graph.NoTrap(g))
            && (Graph.Acyclic(g) ==> forall r :: r in g ==> Graph.Reaches(g, r, head))
    ensures RoutesAreSound(Inventory.ApiRoutes(Flatten(router.routes, "")))
  {
    UnblockedIff(files, router, events);
    Graph.SingleHeadMeans(Graph.GraphOf(files));
    Graph.SingleHeadIff(Graph.GraphOf(files));
  }

  /** In a sound set of routes, no two routes share a method and a path template: two declared
      templates that differ in nothing but parameter names are never both served. */
  lemma {:induction false} SoundRoutesAreApart(routes: seq<Served>, i: nat, j: nat, a: seq<Segment>, b: seq<Segment>,
                                               m: string)
    requires RoutesAreSound(routes) && i < j < |routes|
    requires Declared(a) && routes[i].path == Render(a) && Declared(b) && routes[j].path == Render(b)
    requires m in routes[i].methods && m in routes[j].methods
    ensures Erase(a) != Erase(b)
  {
    DeclaredEqualIff(a, b);
    var key := (m, Canonical(Render(a)));
    assert !Inventory.ServedTwice(routes, key);
  }
}
