/** The counting half of the route inventory: how often each method and canonical path is served,
    which of them twice, and which paths carry a doubled prefix. */
module Inventory {
  import opened Sequences
  import opened Order
  import opened PathNames
  import opened Routes

  /** A method together with a canonical path. */
  type Key = (string, string)

  datatype Report = Report(total: nat, duplicates: map<Key, nat>, doubled: seq<string>)

  predicate Serves(s: Served, key: Key) {
    key.0 in s.methods && Canonical(s.path) == key.1
  }

  /** The indices of the routes that serve a key. */
  function Serving(routes: seq<Served>, key: Key): set<int> {
    set i | 0 <= i < |routes| && Serves(routes[i], key)
  }

  function KeysOf(routes: seq<Served>): set<Key> {
    set i, m | 0 <= i < |routes| && m in routes[i].methods :: (m, Canonical(routes[i].path))
  }

  /** Two different routes serve the key. */
  ghost predicate ServedTwice(routes: seq<Served>, key: Key) {
    exists i, j :: 0 <= i < j < |routes| && Serves(routes[i], key) && Serves(routes[j], key)
  }

  function CountsOf(routes: seq<Served>): map<Key, nat> {
    map key | key in KeysOf(routes) :: |Serving(routes, key)|
  }

  function SumOfMethods(routes: seq<Served>): nat {
    if routes == [] then 0
    else SumOfMethods(routes[..|routes| - 1]) + |routes[|routes| - 1].methods|
  }

  /** The sum of all counts. */
  ghost function Total(m: map<Key, nat>): nat
    decreases |m|
  {
    if m == map[] then 0
    else
      var key :| key in m;
      TotalShrinks(m, key);
      m[key] + Total(m - {key})
  }

  lemma {:induction false} TotalShrinks(m: map<Key, nat>, key: Key)
    requires key in m
    ensures |m - {key}| < |m|
  {
  }

  lemma {:induction false} TotalPick(m: map<Key, nat>, key: Key)
    requires key in m
    ensures Total(m) == m[key] + Total(m - {key})
    decreases |m|
  {
    var first :| first in m && Total(m) == m[first] + Total(m - {first});
    if first != key {
      TotalShrinks(m, first);
      TotalShrinks(m, key);
      TotalPick(m - {first}, key);
      TotalPick(m - {key}, first);
      assert m - {first} - {key} == m - {key} - {first};
    }
  }

  lemma {:induction false} TotalBump(m: map<Key, nat>, key: Key)
    ensures Total(Bump(m, key)) == Total(m) + 1
  {
    var bumped := Bump(m, key);
    TotalPick(bumped, key);
    if key in m {
      TotalPick(m, key);
      assert bumped - {key} == m - {key};
    } else {
      assert bumped - {key} == m;
    }
  }

  // ---------------------------------------------------------------- counting

  /** `seen` counts the keys of `before`, and once more those of the given methods with path `n`. */
  ghost predicate Bumped(seen: map<Key, nat>, before: map<Key, nat>, methods: seq<string>, n: string) {
    forall key: Key ::
      && (key in seen <==> key in before || (key.0 in methods && key.1 == n))
      && (key in seen ==>
            seen[key] == (if key in before then before[key] else 0) + (if key.0 in methods && key.1 == n then 1 else 0))
  }

  /** What one assignment of the loop does to the counts. */
  function Bump(seen: map<Key, nat>, key: Key): map<Key, nat> {
    seen[key := (if key in seen then seen[key] else 0) + 1]
  }

  lemma {:induction false} BumpNext(seen: map<Key, nat>, before: map<Key, nat>, methods: seq<string>, k: nat, n: string)
    requires k < |methods| && Distinct(methods) && Bumped(seen, before, methods[..k], n)
    ensures Bumped(Bump(seen, (methods[k], n)), before, methods[..k + 1], n)
  {
  }

  lemma {:induction false} ServingSnoc(routes: seq<Served>, s: Served, key: Key)
    ensures |Serving(routes + [s], key)| == |Serving(routes, key)| + if Serves(s, key) then 1 else 0
  {
    var more := routes + [s];
    assert forall i :: 0 <= i < |routes| ==> more[i] == routes[i];
    assert Serving(more, key) == Serving(routes, key) + if Serves(s, key) then {|routes|} else {};
  }

  lemma {:induction false} KeysAreServed(routes: seq<Served>, key: Key)
    ensures key in KeysOf(routes) <==> Serving(routes, key) != {}
  {
    if i :| i in Serving(routes, key) {
      assert key.0 in routes[i].methods && key == (key.0, Canonical(routes[i].path));
    }
    if key in KeysOf(routes) {
      var i, m :| 0 <= i < |routes| && m in routes[i].methods && key == (m, Canonical(routes[i].path));
      assert i in Serving(routes, key);
    }
  }

  lemma {:induction false} CountsSnoc(routes: seq<Served>, s: Served, seen: map<Key, nat>)
    requires Bumped(seen, CountsOf(routes), s.methods, Canonical(s.path))
    ensures seen == CountsOf(routes + [s])
  {
    var after := CountsOf(routes + [s]);
    forall key
      ensures key in seen <==> key in after
      ensures key in seen ==> seen[key] == after[key]
    {
      ServingSnoc(routes, s, key);
      KeysAreServed(routes, key);
      KeysAreServed(routes + [s], key);
    }
  }

  /** The counting loop agrees with the pairwise definition, and the counts add up to the number
      of methods over all routes. */
  method Count(routes: seq<Served>) returns (seen: map<Key, nat>)
    requires forall i :: 0 <= i < |routes| ==> Distinct(routes[i].methods)
    ensures seen == CountsOf(routes)
    ensures Total(seen) == SumOfMethods(routes)
  {
    seen := map[];
    for i := 0 to |routes|
      invariant seen == CountsOf(routes[..i])
      invariant Total(seen) == SumOfMethods(routes[..i])
    {
      var methods, normalized := routes[i].methods, Canonical(routes[i].path);
      ghost var before := seen;
      for k := 0 to |methods|
        invariant Bumped(seen, before, methods[..k], normalized)
        invariant Total(seen) == Total(before) + k
      {
        BumpNext(seen, before, methods, k, normalized);
        TotalBump(seen, (methods[k], normalized));
        seen := Bump(seen, (methods[k], normalized));
      }
      assert methods[..|methods|] == methods;
      CountsSnoc(routes[..i], routes[i], seen);
      assert routes[..i + 1] == routes[..i] + [routes[i]];
      assert routes[..i + 1][..i] == routes[..i];
    }
    assert routes[..|routes|] == routes;
  }

  lemma {:induction false} TwiceIffTwo(routes: seq<Served>, key: Key)
    ensures ServedTwice(routes, key) <==> |Serving(routes, key)| > 1
    ensures ServedTwice(routes, key) ==> key in KeysOf(routes)
  {
    KeysAreServed(routes, key);
    var serving := Serving(routes, key);
    if i, j :| 0 <= i < j < |routes| && Serves(routes[i], key) && Serves(routes[j], key) {
      assert {i, j} <= serving && |{i, j}| == 2;
      SubsetIsSmaller({i, j}, serving);
    }
    if |serving| > 1 {
      var i :| i in serving;
      assert |serving - {i}| == |serving| - 1;
      var j :| j in serving - {i};
      assert i < j || j < i;
    }
  }

  // ---------------------------------------------------------------- the report

  function ApiRoutes(routes: seq<Served>): seq<Served> {
    if routes == [] then []
    else
      var rest := ApiRoutes(routes[..|routes| - 1]);
      var last := routes[|routes| - 1];
      if "/api/" <= last.path then rest + [last] else rest
  }

  /** `part in s` for strings. */
  predicate Occurs(part: string, s: string) {
    part <= s || (s != [] && Occurs(part, s[1..]))
  }

  /** A part occurs exactly when the string splits around it. */
  lemma {:induction false} OccursMeans(part: string, s: string)
    ensures Occurs(part, s) <==> exists before, after :: s == before + part + after
  {
    if part <= s {
      assert s == [] + part + s[|part|..];
    } else if s != [] {
      OccursMeans(part, s[1..]);
      if before, after :| s[1..] == before + part + after {
        assert s == ([s[0]] + before) + part + after;
      }
      if before, after :| s == before + part + after {
        assert before == [] ==> s == part + after;
        assert s[1..] == before[1..] + part + after;
      }
    }
  }

  predicate Doubled(path: string) {
    Occurs("/api/v1/api/", path) || Occurs("ai-governance/ai-governance", path) || Occurs("kernel/kernel", path)
  }

  /** The path splits around one of the three doubled prefixes. */
  ghost predicate RepeatsPrefix(path: string) {
    exists part :: part in {"/api/v1/api/", "ai-governance/ai-governance", "kernel/kernel"} && SplitsAround(path, part)
  }

  ghost predicate SplitsAround(path: string, part: string) {
    exists before, after :: path == before + part + after
  }

  lemma {:induction false} DoubledMeans(path: string)
    ensures Doubled(path) <==> RepeatsPrefix(path)
  {
    OccursMeans("/api/v1/api/", path);
    OccursMeans("ai-governance/ai-governance", path);
    OccursMeans("kernel/kernel", path);
    assert SplitsAround(path, "/api/v1/api/") <==> Occurs("/api/v1/api/", path);
    assert SplitsAround(path, "ai-governance/ai-governance") <==> Occurs("ai-governance/ai-governance", path);
    assert SplitsAround(path, "kernel/kernel") <==> Occurs("kernel/kernel", path);
  }

  /** Some route of the list has the path. */
  ghost predicate IsListed(routes: seq<Served>, path: string) {
    exists i :: 0 <= i < |routes| && routes[i].path == path
  }

  lemma {:induction false} DoubledPathsMean(routes: seq<Served>)
    ensures forall path :: path in DoubledPaths(routes) <==> IsListed(routes, path) && RepeatsPrefix(path)
  {
    forall path
      ensures path in DoubledPaths(routes) <==> IsListed(routes, path) && RepeatsPrefix(path)
    {
      DoubledMeans(path);
    }
  }

  /** A string is reported as doubled if and only if it is the path of an API route and splits
      around one of the three texts; the report is sorted. */
  lemma {:induction false} DoubledExact(router: Router)
    ensures var routes := ApiRoutes(Flatten(router.routes, ""));
            var doubled := ReportOf(router).doubled;
            && Ascending(doubled, StringLess)
            && forall path :: path in doubled <==> IsListed(routes, path) && RepeatsPrefix(path)
  {
    var routes := ApiRoutes(Flatten(router.routes, ""));
    DoubledPathsMean(routes);
    assert forall path :: path in ReportOf(router).doubled <==> path in Elements(ReportOf(router).doubled);
  }

  function DoubledPaths(routes: seq<Served>): set<string> {
    set i | 0 <= i < |routes| && Doubled(routes[i].path) :: routes[i].path
  }

  function ReportOf(router: Router): Report {
    var routes := ApiRoutes(Flatten(router.routes, ""));
    var counts := CountsOf(routes);
    Report(|routes|, map key | key in counts && counts[key] > 1 :: counts[key], SortedStrings(DoubledPaths(routes)))
  }

  /** The filter keeps every route under "/api/", as often as it occurs, and no other. */
  lemma {:induction false} ApiRoutesExact(routes: seq<Served>, s: Served)
    ensures multiset(ApiRoutes(routes))[s] == if "/api/" <= s.path then multiset(routes)[s] else 0
  {
    if routes != [] {
      var init := routes[..|routes| - 1];
      ApiRoutesExact(init, s);
      assert routes == init + [routes[|routes| - 1]];
    }
  }

  lemma {:induction false} ApiRoutesAreDistinct(routes: seq<Served>)
    requires forall i :: 0 <= i < |routes| ==> Distinct(routes[i].methods)
    ensures forall i :: 0 <= i < |ApiRoutes(routes)| ==> Distinct(ApiRoutes(routes)[i].methods)
  {
    if routes != [] {
      ApiRoutesAreDistinct(routes[..|routes| - 1]);
    }
  }

  lemma {:induction false} FlattenedMethodsDistinct(routes: seq<Route>, prefix: string)
    ensures forall i :: 0 <= i < |Flatten(routes, prefix)| ==> Distinct(Flatten(routes, prefix)[i].methods)
    decreases routes
  {
    if routes != [] {
      FlattenedMethodsDistinctOne(routes[0], prefix);
      FlattenedMethodsDistinct(routes[1..], prefix);
    }
  }

  lemma {:induction false} FlattenedMethodsDistinctOne(route: Route, prefix: string)
    ensures forall i :: 0 <= i < |FlattenOne(route, prefix)| ==> Distinct(FlattenOne(route, prefix)[i].methods)
    decreases route
  {
    match route
    case Include(p, router) => FlattenedMethodsDistinct(router.routes, Text(p));
    case Leaf(methods, _) =>
      StringsAreOrdered();
      assert Ascending(SortedStrings(methods), StringLess);
  }

  method RouteInventory(router: Router) returns (report: Report)
    ensures report == ReportOf(router)
    ensures forall path :: path in report.doubled <==>
                             IsListed(ApiRoutes(Flatten(router.routes, "")), path) && RepeatsPrefix(path)
  {
    var all := Iterate(router, "");
    var routes: seq<Served> := [];
    for i := 0 to |all|
      invariant routes == ApiRoutes(all[..i])
    {
      assert all[..i + 1][..i] == all[..i];
      if "/api/" <= all[i].path {
        routes := routes + [all[i]];
      }
    }
    assert all[..|all|] == all;
    FlattenedMethodsDistinct(router.routes, "");
    ApiRoutesAreDistinct(all);
    var seen := Count(routes);
    var duplicates := map key | key in seen && seen[key] > 1 :: seen[key];
    report := Report(|routes|, duplicates, SortedStrings(DoubledPaths(routes)));
    DoubledExact(router);
  }

  /** A key is reported as duplicate if and only if two different API routes serve it, and its
      value is the exact number of them. */
  lemma {:induction false} DuplicatesExact(router: Router, key: Key)
    ensures var routes := ApiRoutes(Flatten(router.routes, ""));
            && (key in ReportOf(router).duplicates <==> ServedTwice(routes, key))
            && (key in ReportOf(router).duplicates ==>
                  ReportOf(router).duplicates[key] == |Serving(routes, key)|)
  {
    TwiceIffTwo(ApiRoutes(Flatten(router.routes, "")), key);
  }

  /** For every declared router whose includes record accumulated prefixes, the inventory counts
      the API endpoints at their full paths: a method and path is a duplicate if and only if two
      declared endpoints serve it, and its value is the exact number of them. */
  lemma {:induction false} DeclaredDuplicatesExact(d: Declaration, key: Key)
    ensures var routes := ApiRoutes(Endpoints(d));
            var report := ReportOf(RouterOf(Accumulated(d, "")));
            && report.total == |routes|
            && (key in report.duplicates <==> ServedTwice(routes, key))
            && (key in report.duplicates ==> report.duplicates[key] == |Serving(routes, key)|)
            && (forall path :: path in report.doubled <==> IsListed(routes, path) && RepeatsPrefix(path))
  {
    AccumulatedIsFull(d);
    DoubledExact(RouterOf(Accumulated(d, "")));
    DuplicatesExact(RouterOf(Accumulated(d, "")), key);
  }
}
