/** The route inventory: flattening nested routers, counting what each method and canonical path
    serves, and reporting duplicates and doubled prefixes. */
module Routes {
  import opened Sequences
  import opened Order

  datatype Prefix = NoPrefix | WithPrefix(text: string)

  /** An included router, or a leaf. A leaf without methods has an empty set of them. */
  datatype Route =
    | Include(prefix: Prefix, router: Router)
    | Leaf(methods: set<string>, path: string)

  datatype Router = Router(routes: seq<Route>)

  datatype Option<T> = None | Some(value: T)

  /** One entry of the flattened list; the methods are sorted. */
  datatype Served = Served(methods: seq<string>, path: string)

  function Text(p: Prefix): string {
    match p
    case NoPrefix => ""
    case WithPrefix(text) => text
  }

  predicate CanServe(methods: set<string>, path: string) {
    methods != {} && path != ""
  }

  /** The nested loop of the inventory: an include hands down its own prefix only. */
  function Flatten(routes: seq<Route>, prefix: string): seq<Served>
    decreases routes
  {
    if routes == [] then []
    else FlattenOne(routes[0], prefix) + Flatten(routes[1..], prefix)
  }

  function FlattenOne(route: Route, prefix: string): seq<Served>
    decreases route
  {
    match route
    case Include(p, router) => Flatten(router.routes, Text(p))
    case Leaf(methods, path) =>
      if CanServe(methods, path) then [Served(SortedStrings(methods), prefix + path)] else []
  }

  method Iterate(router: Router, prefix: string) returns (out: seq<Served>)
    ensures out == Flatten(router.routes, prefix)
    decreases router
  {
    out := [];
    var routes := router.routes;
    for i := 0 to |routes|
      invariant out == Flatten(routes[..i], prefix)
    {
      FlattenSnoc(routes[..i], routes[i], prefix);
      assert routes[..i + 1] == routes[..i] + [routes[i]];
      match routes[i] {
        case Include(p, inner) =>
          var nested := Iterate(inner, Text(p));
          out := out + nested;
        case Leaf(methods, path) =>
          if methods != {} && path != "" {
            out := out + [Served(SortedStrings(methods), prefix + path)];
          }
      }
    }
    assert routes[..|routes|] == routes;
  }

  lemma {:induction false} FlattenSnoc(xs: seq<Route>, route: Route, prefix: string)
    ensures Flatten(xs + [route], prefix) == Flatten(xs, prefix) + FlattenOne(route, prefix)
  {
    FlattenConcat(xs, [route], prefix);
    assert [route][1..] == [];
  }

  lemma {:induction false} FlattenConcat(xs: seq<Route>, ys: seq<Route>, prefix: string)
    ensures Flatten(xs + ys, prefix) == Flatten(xs, prefix) + Flatten(ys, prefix)
  {
    if xs == [] {
      assert xs + ys == ys;
    } else {
      assert (xs + ys)[0] == xs[0] && (xs + ys)[1..] == xs[1..] + ys;
      FlattenConcat(xs[1..], ys, prefix);
    }
  }

  /** A leaf is listed exactly when it has methods and a path. */
  lemma {:induction false} LeafIsListedIff(methods: set<string>, path: string, prefix: string)
    ensures Flatten([Leaf(methods, path)], prefix) ==
            if methods != {} && path != "" then [Served(SortedStrings(methods), prefix + path)] else []
  {
    assert [Leaf(methods, path)][1..] == [];
  }

  /** An include is listed as the included router under the prefix of the include, whatever prefix
      it is found under; a missing prefix counts as the empty one. */
  lemma {:induction false} IncludeIsListed(router: Router, text: string, prefix: string)
    ensures Flatten([Include(NoPrefix, router)], prefix) == Flatten(router.routes, "")
    ensures Flatten([Include(WithPrefix(text), router)], prefix) == Flatten(router.routes, text)
  {
    assert [Include(NoPrefix, router)][1..] == [] && [Include(WithPrefix(text), router)][1..] == [];
  }

  // ---------------------------------------------------------------- entries by address

  /** The way down to a route: an index at each level. */
  type Address = seq<nat>

  /** The entry found by going down the address, remembering only the last prefix passed. */
  function Resolve(routes: seq<Route>, prefix: string, a: Address): seq<Served>
    decreases |a|
  {
    if a == [] || a[0] >= |routes| then []
    else match routes[a[0]]
         case Include(p, router) => Resolve(router.routes, Text(p), a[1..])
         case Leaf(methods, path) =>
           if |a| == 1 && methods != {} && path != "" then [Served(SortedStrings(methods), prefix + path)] else []
  }

  /** The address leads through includes to a leaf. */
  function LeafOf(routes: seq<Route>, a: Address): Option<Route>
    decreases |a|
  {
    if a == [] || a[0] >= |routes| then None
    else match routes[a[0]]
         case Include(_, router) => LeafOf(router.routes, a[1..])
         case Leaf(_, _) => if |a| == 1 then Some(routes[a[0]]) else None
  }

  /** An address has an entry if and only if it leads to a leaf with methods and a path; the entry
      then has the leaf's methods, sorted, and a path that ends in the leaf's. */
  lemma {:induction false} HasEntryIff(routes: seq<Route>, prefix: string, a: Address)
    ensures Resolve(routes, prefix, a) != [] <==>
            exists methods, path :: LeafOf(routes, a) == Some(Leaf(methods, path)) && methods != {} && path != ""
    ensures forall methods, path :: LeafOf(routes, a) == Some(Leaf(methods, path)) && methods != {} && path != "" ==>
              exists before :: Resolve(routes, prefix, a) == [Served(SortedStrings(methods), before + path)]
    decreases |a|
  {
    if a != [] && a[0] < |routes| {
      match routes[a[0]]
      case Include(p, router) => HasEntryIff(router.routes, Text(p), a[1..]);
      case Leaf(methods, path) =>
        if |a| == 1 && methods != {} && path != "" {
          assert Resolve(routes, prefix, a) == [Served(SortedStrings(methods), prefix + path)];
        }
    }
  }

  /** Traversal order of addresses. */
  predicate Earlier(a: Address, b: Address) {
    b != [] && (a == [] || a[0] < b[0] || (a[0] == b[0] && Earlier(a[1..], b[1..])))
  }

  function Prepend(k: nat, addresses: seq<Address>): (r: seq<Address>)
    ensures |r| == |addresses| && forall i :: 0 <= i < |r| ==> r[i] == [k] + addresses[i]
  {
    seq(|addresses|, i requires 0 <= i < |addresses| => [k] + addresses[i])
  }

  /** The addresses of the entries of the routes from index `k` on. */
  function Addresses(routes: seq<Route>, k: nat): seq<Address>
    requires k <= |routes|
    decreases routes, |routes| - k
  {
    if k == |routes| then []
    else AddressesAt(routes[k], k) + Addresses(routes, k + 1)
  }

  function AddressesAt(route: Route, k: nat): seq<Address>
    decreases route, 0
  {
    match route
    case Include(_, router) => Prepend(k, Addresses(router.routes, 0))
    case Leaf(methods, path) => if CanServe(methods, path) then [[k]] else []
  }

  /** `addresses` lists, in traversal order and once each, every address that starts at an index
      from `lo` to below `hi` and resolves to an entry, and `entries` are those entries. */
  ghost predicate Traverses(routes: seq<Route>, prefix: string, lo: nat, hi: nat,
                            addresses: seq<Address>, entries: seq<Served>) {
    && |addresses| == |entries|
    && (forall i :: 0 <= i < |addresses| ==> StartsWithin(addresses[i], lo, hi))
    && (forall i :: 0 <= i < |addresses| ==> Resolve(routes, prefix, addresses[i]) == [entries[i]])
    && (forall i, j :: 0 <= i < j < |addresses| ==> Earlier(addresses[i], addresses[j]))
    && (forall a :: StartsWithin(a, lo, hi) && Resolve(routes, prefix, a) != [] ==> a in addresses)
  }

  predicate StartsWithin(a: Address, lo: nat, hi: nat) {
    a != [] && lo <= a[0] < hi
  }

  lemma {:induction false} TraversesConcat(routes: seq<Route>, prefix: string, lo: nat, mid: nat, hi: nat,
                                           a1: seq<Address>, e1: seq<Served>, a2: seq<Address>, e2: seq<Served>)
    requires lo <= mid <= hi
    requires Traverses(routes, prefix, lo, mid, a1, e1) && Traverses(routes, prefix, mid, hi, a2, e2)
    ensures Traverses(routes, prefix, lo, hi, a1 + a2, e1 + e2)
  {
    AscendingConcat(a1, a2, lo, mid, hi);
    forall a | StartsWithin(a, lo, hi) && Resolve(routes, prefix, a) != []
      ensures a in a1 + a2
    {
      assert StartsWithin(a, lo, mid) || StartsWithin(a, mid, hi);
      assert a in a1 || a in a2;
    }
    forall i | 0 <= i < |a1 + a2|
      ensures Resolve(routes, prefix, (a1 + a2)[i]) == [(e1 + e2)[i]]
    {
      if i < |a1| {
        assert Resolve(routes, prefix, a1[i]) == [e1[i]];
      } else {
        assert Resolve(routes, prefix, a2[i - |a1|]) == [e2[i - |a1|]];
      }
    }
  }

  lemma {:induction false} AscendingConcat(a1: seq<Address>, a2: seq<Address>, lo: nat, mid: nat, hi: nat)
    requires lo <= mid <= hi
    requires forall i :: 0 <= i < |a1| ==> StartsWithin(a1[i], lo, mid)
    requires forall i :: 0 <= i < |a2| ==> StartsWithin(a2[i], mid, hi)
    requires forall i, j :: 0 <= i < j < |a1| ==> Earlier(a1[i], a1[j])
    requires forall i, j :: 0 <= i < j < |a2| ==> Earlier(a2[i], a2[j])
    ensures forall i :: 0 <= i < |a1 + a2| ==> StartsWithin((a1 + a2)[i], lo, hi)
    ensures forall i, j :: 0 <= i < j < |a1 + a2| ==> Earlier((a1 + a2)[i], (a1 + a2)[j])
  {
  }

  /** Traversal order is strict, so no address comes twice. */
  lemma {:induction false} EarlierIsStrict(a: Address)
    ensures !Earlier(a, a)
  {
    if a != [] {
      EarlierIsStrict(a[1..]);
    }
  }

  lemma {:induction false} RouteIsTraversed(routes: seq<Route>, prefix: string, k: nat)
    requires k < |routes|
    ensures Traverses(routes, prefix, k, k + 1, AddressesAt(routes[k], k), FlattenOne(routes[k], prefix))
    decreases routes[k], 0
  {
    match routes[k]
    case Include(p, router) =>
      TraversalFrom(router.routes, Text(p), 0);
      assert router.routes[0..] == router.routes;
      IncludeIsTraversed(routes, prefix, k, Addresses(router.routes, 0), Flatten(router.routes, Text(p)));
    case Leaf(methods, path) =>
      forall a | StartsWithin(a, k, k + 1) && Resolve(routes, prefix, a) != []
        ensures a == [k]
      {
      }
  }

  lemma {:induction false} ResolveBelow(routes: seq<Route>, prefix: string, a: Address)
    requires a != [] && a[0] < |routes| && routes[a[0]].Include?
    ensures var Include(p, router) := routes[a[0]];
            && Resolve(routes, prefix, a) == Resolve(router.routes, Text(p), a[1..])
            && (Resolve(routes, prefix, a) != [] ==> StartsWithin(a[1..], 0, |router.routes|))
  {
  }

  lemma {:induction false} PrependKeepsOrder(k: nat, inner: seq<Address>)
    requires forall i, j :: 0 <= i < j < |inner| ==> Earlier(inner[i], inner[j])
    ensures forall i, j :: 0 <= i < j < |inner| ==> Earlier(Prepend(k, inner)[i], Prepend(k, inner)[j])
  {
    var addresses := Prepend(k, inner);
    forall i, j | 0 <= i < j < |inner|
      ensures Earlier(addresses[i], addresses[j])
    {
      assert addresses[i][1..] == inner[i] && addresses[j][1..] == inner[j];
    }
  }

  lemma {:induction false} PrependHolds(k: nat, inner: seq<Address>, a: Address)
    requires a != [] && a[0] == k && a[1..] in inner
    ensures a in Prepend(k, inner)
  {
    var i :| 0 <= i < |inner| && inner[i] == a[1..];
    assert Prepend(k, inner)[i] == [k] + a[1..] == a;
  }

  lemma {:induction false} IncludeIsTraversed(routes: seq<Route>, prefix: string, k: nat, inner: seq<Address>,
                                              entries: seq<Served>)
    requires k < |routes| && routes[k].Include?
    requires var Include(p, router) := routes[k];
             Traverses(router.routes, Text(p), 0, |router.routes|, inner, entries)
    ensures Traverses(routes, prefix, k, k + 1, Prepend(k, inner), entries)
  {
    var addresses := Prepend(k, inner);
    PrependKeepsOrder(k, inner);
    forall i | 0 <= i < |addresses|
      ensures StartsWithin(addresses[i], k, k + 1) && Resolve(routes, prefix, addresses[i]) == [entries[i]]
    {
      assert addresses[i][1..] == inner[i];
      ResolveBelow(routes, prefix, addresses[i]);
    }
    forall a | StartsWithin(a, k, k + 1) && Resolve(routes, prefix, a) != []
      ensures a in addresses
    {
      ResolveBelow(routes, prefix, a);
      PrependHolds(k, inner, a);
    }
  }

  lemma {:induction false} TraversalFrom(routes: seq<Route>, prefix: string, k: nat)
    requires k <= |routes|
    ensures Traverses(routes, prefix, k, |routes|, Addresses(routes, k), Flatten(routes[k..], prefix))
    decreases routes, |routes| - k
  {
    if k < |routes| {
      RouteIsTraversed(routes, prefix, k);
      TraversalFrom(routes, prefix, k + 1);
      assert routes[k..][0] == routes[k] && routes[k..][1..] == routes[k + 1..];
      TraversesConcat(routes, prefix, k, k + 1, |routes|,
                      AddressesAt(routes[k], k), FlattenOne(routes[k], prefix),
                      Addresses(routes, k + 1), Flatten(routes[k + 1..], prefix));
    }
  }

  lemma {:induction false} EarlierMeansDistinct(addresses: seq<Address>)
    requires forall i, j :: 0 <= i < j < |addresses| ==> Earlier(addresses[i], addresses[j])
    ensures Distinct(addresses)
  {
    forall i, j | 0 <= i < j < |addresses|
      ensures addresses[i] != addresses[j]
    {
      EarlierIsStrict(addresses[i]);
    }
  }

  /** The flattened list holds exactly one entry for each leaf with methods and a path, in
      traversal order; its path is the innermost include's prefix followed by the leaf's. */
  lemma {:induction false} FlattenIsTraversal(router: Router, prefix: string)
    ensures exists addresses ::
              && Distinct(addresses)
              && Traverses(router.routes, prefix, 0, |router.routes|, addresses, Flatten(router.routes, prefix))
  {
    TraversalFrom(router.routes, prefix, 0);
    assert router.routes[0..] == router.routes;
    EarlierMeansDistinct(Addresses(router.routes, 0));
  }

  // ---------------------------------------------------------------- full paths

  /** A router as it is declared: the prefix it gives its own endpoints, and what is added to it. */
  datatype Declaration = Declaration(prefix: string, items: seq<Item>)

  /** An endpoint, or a router included under a further prefix. The context is what the include
      records about where the included router ends up. */
  datatype Item =
    | Endpoint(methods: set<string>, path: string)
    | Included(prefix: string, context: Prefix, child: Declaration)

  /** The router object of a declaration: paths are relative to the router, with its own prefix. */
  function RouterOf(d: Declaration): Router {
    Router(RoutesOf(d.items, d.prefix))
  }

  function RoutesOf(items: seq<Item>, own: string): seq<Route>
    decreases items
  {
    if items == [] then [] else [RouteOf(items[0], own)] + RoutesOf(items[1..], own)
  }

  function RouteOf(item: Item, own: string): Route
    decreases item
  {
    match item
    case Endpoint(methods, path) => Leaf(methods, own + path)
    case Included(_, context, child) => Include(context, RouterOf(child))
  }

  /** What a mount point adds to the paths below it. */
  function Mounted(mount: string, entries: seq<Served>): (r: seq<Served>)
    ensures |r| == |entries|
    ensures forall i :: 0 <= i < |r| ==> r[i] == Served(entries[i].methods, mount + entries[i].path)
  {
    seq(|entries|, i requires 0 <= i < |entries| => Served(entries[i].methods, mount + entries[i].path))
  }

  /** What the declaration serves, at full paths below the place where it is mounted: including a
      router mounts all it serves under the includer's own prefix and the prefix of the include. */
  function Endpoints(d: Declaration): seq<Served> {
    EndpointsOf(d.items, d.prefix)
  }

  function EndpointsOf(items: seq<Item>, own: string): seq<Served>
    decreases items
  {
    if items == [] then [] else EndpointsAt(items[0], own) + EndpointsOf(items[1..], own)
  }

  function EndpointsAt(item: Item, own: string): seq<Served>
    decreases item
  {
    match item
    case Endpoint(methods, path) =>
      if methods != {} && own + path != "" then [Served(SortedStrings(methods), own + path)] else []
    case Included(prefix, _, child) => Mounted(own + prefix, Endpoints(child))
  }

  /** Some item is itself an endpoint that serves. */
  predicate ServesItself(items: seq<Item>, own: string) {
    exists k :: 0 <= k < |items| && IsServing(items[k], own)
  }

  predicate IsServing(item: Item, own: string) {
    item.Endpoint? && item.methods != {} && own + item.path != ""
  }

  /** Each include of a router with serving endpoints of its own records the accumulated prefix:
      where its parent is mounted, the parent's own prefix, and the prefix of the include. */
  predicate ContextsRight(items: seq<Item>, own: string, mount: string)
    decreases items
  {
    forall k :: 0 <= k < |items| ==> ContextRight(items[k], own, mount)
  }

  predicate ContextRight(item: Item, own: string, mount: string)
    decreases item
  {
    match item
    case Endpoint(_, _) => true
    case Included(prefix, context, child) =>
      var inner := mount + (own + prefix);
      && (ServesItself(child.items, child.prefix) ==> Text(context) == inner)
      && ContextsRight(child.items, child.prefix, inner)
  }

  lemma {:induction false} MountedTwice(outer: string, inner: string, entries: seq<Served>)
    ensures Mounted(outer, Mounted(inner, entries)) == Mounted(outer + inner, entries)
  {
    forall i | 0 <= i < |entries|
      ensures outer + (inner + entries[i].path) == (outer + inner) + entries[i].path
    {
    }
  }

  lemma {:induction false} MountedConcat(mount: string, xs: seq<Served>, ys: seq<Served>)
    ensures Mounted(mount, xs + ys) == Mounted(mount, xs) + Mounted(mount, ys)
  {
  }

  lemma {:induction false} MountedNowhere(entries: seq<Served>)
    ensures Mounted("", entries) == entries
  {
    forall i | 0 <= i < |entries|
      ensures "" + entries[i].path == entries[i].path
    {
    }
  }

  lemma {:induction false} EqualParts(a: seq<Served>, b: seq<Served>, c: seq<Served>, d: seq<Served>)
    requires |a| == |b|
    ensures a + c == b + d <==> a == b && c == d
  {
    assert (a + c)[..|a|] == a && (b + d)[..|b|] == b;
    assert (a + c)[|a|..] == c && (b + d)[|b|..] == d;
  }

  lemma {:induction false} ItemsAreFullIff(items: seq<Item>, own: string, prefix: string, mount: string)
    ensures var flat, full := Flatten(RoutesOf(items, own), prefix), Mounted(mount, EndpointsOf(items, own));
            && |flat| == |full|
            && (flat == full <==>
                (ServesItself(items, own) ==> prefix == mount) && ContextsRight(items, own, mount))
    decreases items, 1
  {
    if items != [] {
      var rest := items[1..];
      ItemIsFullIff(items[0], own, prefix, mount);
      ItemsAreFullIff(rest, own, prefix, mount);
      MountedConcat(mount, EndpointsAt(items[0], own), EndpointsOf(rest, own));
      EqualParts(FlattenOne(RouteOf(items[0], own), prefix), Mounted(mount, EndpointsAt(items[0], own)),
                 Flatten(RoutesOf(rest, own), prefix), Mounted(mount, EndpointsOf(rest, own)));
      ConditionSplits(items, own, mount);
    }
  }

  lemma {:induction false} ConditionSplits(items: seq<Item>, own: string, mount: string)
    requires items != []
    ensures ServesItself(items, own) <==> IsServing(items[0], own) || ServesItself(items[1..], own)
    ensures ContextsRight(items, own, mount) <==>
            ContextRight(items[0], own, mount) && ContextsRight(items[1..], own, mount)
  {
    assert forall k :: 0 <= k < |items[1..]| ==> items[1..][k] == items[k + 1];
    assert forall k :: 0 < k < |items| ==> items[k] == items[1..][k - 1];
  }

  lemma {:induction false} ItemIsFullIff(item: Item, own: string, prefix: string, mount: string)
    ensures var flat, full := FlattenOne(RouteOf(item, own), prefix), Mounted(mount, EndpointsAt(item, own));
            && |flat| == |full|
            && (flat == full <==> (IsServing(item, own) ==> prefix == mount) && ContextRight(item, own, mount))
    decreases item, 0
  {
    match item
    case Endpoint(methods, path) =>
      SamePathIff(prefix, mount, own + path);
      var flat, full := FlattenOne(RouteOf(item, own), prefix), Mounted(mount, EndpointsAt(item, own));
      if CanServe(methods, own + path) {
        assert flat[0].path == prefix + (own + path) && full[0].path == mount + (own + path);
        assert flat == full <==> flat[0] == full[0];
      }
    case Included(p, context, child) =>
      MountedTwice(mount, own + p, Endpoints(child));
      ItemsAreFullIff(child.items, child.prefix, Text(context), mount + (own + p));
  }

  lemma {:induction false} SamePathIff(a: string, b: string, path: string)
    ensures a + path == b + path <==> a == b
  {
    if a + path == b + path {
      assert |a| == |b| && (a + path)[..|a|] == a && (b + path)[..|b|] == b;
    }
  }

  /** The inventory sees every serving endpoint at its full path if and only if every include of a
      router that serves itself has recorded the accumulated prefix. */
  lemma {:induction false} FlattenIsFullIff(d: Declaration)
    ensures Flatten(RouterOf(d).routes, "") == Endpoints(d) <==> ContextsRight(d.items, d.prefix, "")
  {
    ItemsAreFullIff(d.items, d.prefix, "", "");
    MountedNowhere(Endpoints(d));
  }

  /** The declaration with the contexts that the framework records: fully accumulated prefixes. */
  function Accumulated(d: Declaration, mount: string): Declaration {
    d.(items := AccumulatedItems(d.items, d.prefix, mount))
  }

  function AccumulatedItems(items: seq<Item>, own: string, mount: string): seq<Item>
    decreases items
  {
    if items == [] then [] else [AccumulatedItem(items[0], own, mount)] + AccumulatedItems(items[1..], own, mount)
  }

  function AccumulatedItem(item: Item, own: string, mount: string): Item
    decreases item
  {
    match item
    case Endpoint(_, _) => item
    case Included(prefix, _, child) =>
      var inner := mount + (own + prefix);
      Included(prefix, WithPrefix(inner), Accumulated(child, inner))
  }

  lemma {:induction false} AccumulatedIsRight(items: seq<Item>, own: string, mount: string)
    ensures var done := AccumulatedItems(items, own, mount);
            ContextsRight(done, own, mount) && EndpointsOf(done, own) == EndpointsOf(items, own)
    decreases items, 1
  {
    if items != [] {
      var done := AccumulatedItems(items, own, mount);
      AccumulatedItemIsRight(items[0], own, mount);
      AccumulatedIsRight(items[1..], own, mount);
      assert done[0] == AccumulatedItem(items[0], own, mount);
      assert done[1..] == AccumulatedItems(items[1..], own, mount);
      ConditionSplits(done, own, mount);
    }
  }

  lemma {:induction false} AccumulatedItemIsRight(item: Item, own: string, mount: string)
    ensures var done := AccumulatedItem(item, own, mount);
            ContextRight(done, own, mount) && EndpointsAt(done, own) == EndpointsAt(item, own)
    decreases item, 0
  {
    match item
    case Endpoint(_, _) =>
    case Included(prefix, _, child) =>
      AccumulatedIsRight(child.items, child.prefix, mount + (own + prefix));
  }

  /** With accumulated contexts the inventory lists, for every declaration, each serving endpoint
      at its full path and nothing else, although it hands down the innermost prefix only. */
  lemma {:induction false} AccumulatedIsFull(d: Declaration)
    ensures Flatten(RouterOf(Accumulated(d, "")).routes, "") == Endpoints(d)
  {
    AccumulatedIsRight(d.items, d.prefix, "");
    FlattenIsFullIff(Accumulated(d, ""));
  }

  /** A context that only knows its parent's own prefix is not enough below the second level. */
  lemma {:induction false} ParentPrefixIsNotEnough(methods: set<string>)
    requires methods != {}
    ensures var leaf := Declaration("", [Endpoint(methods, "/messages")]);
            var middle := Declaration("/chat", [Included("/v2", WithPrefix("/chat/v2"), leaf)]);
            var top := Declaration("/api", [Included("", WithPrefix("/api"), middle)]);
            Flatten(RouterOf(top).routes, "") != Endpoints(top)
  {
    var leaf := Declaration("", [Endpoint(methods, "/messages")]);
    var middle := Declaration("/chat", [Included("/v2", WithPrefix("/chat/v2"), leaf)]);
    var top := Declaration("/api", [Included("", WithPrefix("/api"), middle)]);
    FlattenIsFullIff(top);
    assert IsServing(leaf.items[0], leaf.prefix);
    assert !ContextRight(middle.items[0], "/chat", "/api");
    assert "" + ("/api" + "") == "/api";
    assert !ContextRight(top.items[0], "/api", "");
  }

  /** An endpoint two includes deep is served at the full path, own prefixes and include prefixes
      in order, when the contexts are accumulated; the contexts given are replaced. */
  lemma {:induction false} TwoIncludesDeep(methods: set<string>, own0: string, p1: string, own1: string, p2: string,
                                           own2: string, path: string, c1: Prefix, c2: Prefix)
    requires methods != {} && own2 + path != ""
    ensures var leaf := Declaration(own2, [Endpoint(methods, path)]);
            var middle := Declaration(own1, [Included(p2, c2, leaf)]);
            var top := Declaration(own0, [Included(p1, c1, middle)]);
            Flatten(RouterOf(Accumulated(top, "")).routes, "") ==
            [Served(SortedStrings(methods), own0 + p1 + own1 + p2 + own2 + path)]
  {
    var leaf := Declaration(own2, [Endpoint(methods, path)]);
    var middle := Declaration(own1, [Included(p2, c2, leaf)]);
    var top := Declaration(own0, [Included(p1, c1, middle)]);
    AccumulatedIsFull(top);
    EndpointsOfOne(leaf);
    EndpointsOfOne(middle);
    EndpointsOfOne(top);
    var e := Endpoints(leaf);
    assert e == [Served(SortedStrings(methods), own2 + path)];
    assert Endpoints(middle) == Mounted(own1 + p2, e);
    assert Endpoints(top) == Mounted(own0 + p1, Mounted(own1 + p2, e));
    assert (own0 + p1) + ((own1 + p2) + (own2 + path)) == own0 + p1 + own1 + p2 + own2 + path;
  }

  lemma {:induction false} EndpointsOfOne(d: Declaration)
    requires |d.items| == 1
    ensures Endpoints(d) == EndpointsAt(d.items[0], d.prefix)
  {
    assert EndpointsOf(d.items[1..], d.prefix) == [];
  }
}
