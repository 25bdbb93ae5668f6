/** The tree of a program's modules: walking it with an accumulator, and fetching one of them by its path. */
module Modular {
  import opened Wrappers
  import opened Sequences

  /**
   A module of some type, with its methods: those demarcated as submodules, in order, and the others.  What
   the others return need not be a tree; it is one here, unrolled as far as a path may go.
   */
  datatype Module<M, D> = Module(kind: M, submodules: seq<Method<M, D>>, others: seq<Method<M, D>>)

  /** A demarcated method and what it returns. */
  datatype Method<M, D> = Method(demarcation: D, target: Module<M, D>)

  function Methods<M, D>(m: Module<M, D>): seq<Method<M, D>> {
    m.submodules + m.others
  }

  /** A module together with the demarcations that lead to it. */
  datatype Entry<M, D> = Entry(target: Module<M, D>, path: seq<D>)

  /** Pre-order traversal: the accumulator sees the module, then all that is below it. */
  function Walk<M, D, S>(m: Module<M, D>, path: seq<D>, state: S, accumulate: (Module<M, D>, seq<D>, S) -> S): S
    decreases m, |m.submodules| + 1
  {
    WalkFrom(m, 0, path, accumulate(m, path, state), accumulate)
  }

  /** The reduction over the submodules of `m`, from number `i` on. */
  function WalkFrom<M, D, S>(m: Module<M, D>, i: nat, path: seq<D>, state: S,
                             accumulate: (Module<M, D>, seq<D>, S) -> S): S
    requires i <= |m.submodules|
    decreases m, |m.submodules| - i
  {
    if i == |m.submodules| then state
    else
      var sub := m.submodules[i];
      WalkFrom(m, i + 1, path, Walk(sub.target, path + [sub.demarcation], state, accumulate), accumulate)
  }

  /** What the method of a demarcation returns. */
  function Invoke<M, D(==)>(methods: seq<Method<M, D>>, demarcation: D): Option<Module<M, D>> {
    if methods == [] then None
    else if methods[0].demarcation == demarcation then Some(methods[0].target)
    else Invoke(methods[1..], demarcation)
  }

  /**
   Calls the methods of a path one after the other, whether or not they are demarcated as submodules; the
   original does not compile if there is no such method.
   */
  function Fetch<M, D(==)>(root: Module<M, D>, path: seq<D>): Option<Module<M, D>>
    requires path != []
    decreases |path|
  {
    match Invoke(Methods(root), path[0])
    case None => None
    case Some(trunk) => if |path| == 1 then Some(trunk) else Fetch(trunk, path[1..])
  }

  // ----- the listing

  /** The tree's modules with their paths, each before those below it. */
  function Listing<M, D>(m: Module<M, D>, path: seq<D>): seq<Entry<M, D>>
    decreases m, |m.submodules| + 1
  {
    [Entry(m, path)] + ListingFrom(m, 0, path)
  }

  function ListingFrom<M, D>(m: Module<M, D>, i: nat, path: seq<D>): seq<Entry<M, D>>
    requires i <= |m.submodules|
    decreases m, |m.submodules| - i
  {
    if i == |m.submodules| then []
    else
      var sub := m.submodules[i];
      Listing(sub.target, path + [sub.demarcation]) + ListingFrom(m, i + 1, path)
  }

  function Fold<M, D, S>(entries: seq<Entry<M, D>>, state: S, accumulate: (Module<M, D>, seq<D>, S) -> S): S
    decreases |entries|
  {
    if entries == [] then state
    else Fold(entries[1..], accumulate(entries[0].target, entries[0].path, state), accumulate)
  }

  lemma {:induction false} FoldTogether<M, D, S>(a: seq<Entry<M, D>>, b: seq<Entry<M, D>>, state: S,
                                                 accumulate: (Module<M, D>, seq<D>, S) -> S)
    ensures Fold(a + b, state, accumulate) == Fold(b, Fold(a, state, accumulate), accumulate)
    decreases |a|
  {
    if a == [] {
      assert a + b == b;
    } else {
      assert (a + b)[1..] == a[1..] + b;
      FoldTogether(a[1..], b, accumulate(a[0].target, a[0].path, state), accumulate);
    }
  }

  /** Walking the tree is folding its listing, for every accumulator. */
  lemma {:induction false} WalkIsFold<M, D, S>(m: Module<M, D>, path: seq<D>, state: S,
                                               accumulate: (Module<M, D>, seq<D>, S) -> S)
    ensures Walk(m, path, state, accumulate) == Fold(Listing(m, path), state, accumulate)
    decreases m, |m.submodules| + 1
  {
    WalkFromIsFold(m, 0, path, accumulate(m, path, state), accumulate);
    assert Listing(m, path)[1..] == ListingFrom(m, 0, path);
  }

  lemma {:induction false} WalkFromIsFold<M, D, S>(m: Module<M, D>, i: nat, path: seq<D>, state: S,
                                                   accumulate: (Module<M, D>, seq<D>, S) -> S)
    requires i <= |m.submodules|
    ensures WalkFrom(m, i, path, state, accumulate) == Fold(ListingFrom(m, i, path), state, accumulate)
    decreases m, |m.submodules| - i
  {
    if i < |m.submodules| {
      var sub := m.submodules[i];
      var there := path + [sub.demarcation];
      WalkIsFold(sub.target, there, state, accumulate);
      WalkFromIsFold(m, i + 1, path, Walk(sub.target, there, state, accumulate), accumulate);
      FoldTogether(Listing(sub.target, there), ListingFrom(m, i + 1, path), state, accumulate);
    }
  }

  /** The accumulator that lists modules. */
  function ListModule<M, D>(m: Module<M, D>, path: seq<D>, state: seq<Entry<M, D>>): seq<Entry<M, D>> {
    state + [Entry(m, path)]
  }

  lemma {:induction false} FoldLists<M, D>(entries: seq<Entry<M, D>>, state: seq<Entry<M, D>>)
    ensures Fold(entries, state, ListModule) == state + entries
    decreases |entries|
  {
    if entries == [] {
      assert state + entries == state;
    } else {
      FoldLists(entries[1..], state + [entries[0]]);
      assert state + entries == state + [entries[0]] + entries[1..];
    }
  }

  /** Walking with the listing accumulator gives the listing. */
  lemma WalkLists<M, D>(m: Module<M, D>)
    ensures Walk(m, [], [], ListModule) == Listing(m, [])
  {
    WalkIsFold(m, [], [], ListModule);
    FoldLists(Listing(m, []), []);
  }

  // ----- the order of the listing

  /** A route goes down from a module by the positions of submodules. */
  ghost predicate IsRoute<M, D>(m: Module<M, D>, route: seq<nat>)
    decreases |route|
  {
    route == [] || (route[0] < |m.submodules| && IsRoute(m.submodules[route[0]].target, route[1..]))
  }

  ghost function Reached<M, D>(m: Module<M, D>, route: seq<nat>): Module<M, D>
    requires IsRoute(m, route)
    decreases |route|
  {
    if route == [] then m else Reached(m.submodules[route[0]].target, route[1..])
  }

  ghost function Along<M, D>(m: Module<M, D>, route: seq<nat>): seq<D>
    requires IsRoute(m, route)
    decreases |route|
  {
    if route == [] then []
    else [m.submodules[route[0]].demarcation] + Along(m.submodules[route[0]].target, route[1..])
  }

  /** A module comes before all that is below it, and all below a submodule before all below a later one. */
  ghost predicate Earlier(a: seq<nat>, b: seq<nat>)
    decreases |a|
  {
    b != [] && (a == [] || a[0] < b[0] || (a[0] == b[0] && Earlier(a[1..], b[1..])))
  }

  /** The entries are the modules at the ends of the routes, which are in order. */
  ghost predicate AlongRoutes<M, D>(m: Module<M, D>, base: seq<D>, entries: seq<Entry<M, D>>, routes: seq<seq<nat>>) {
    && |routes| == |entries|
    && (forall k :: 0 <= k < |routes| ==>
          IsRoute(m, routes[k]) && entries[k] == Entry(Reached(m, routes[k]), base + Along(m, routes[k])))
    && forall j, k :: 0 <= j < k < |routes| ==> Earlier(routes[j], routes[k])
  }

  /** The routes that go through submodule `i`, given those from there. */
  ghost function Through(i: nat, routes: seq<seq<nat>>): seq<seq<nat>> {
    seq(|routes|, k requires 0 <= k < |routes| => [i] + routes[k])
  }

  lemma RouteThrough<M, D>(m: Module<M, D>, i: nat, route: seq<nat>)
    requires i < |m.submodules| && IsRoute(m.submodules[i].target, route)
    ensures IsRoute(m, [i] + route)
    ensures Reached(m, [i] + route) == Reached(m.submodules[i].target, route)
    ensures Along(m, [i] + route) == [m.submodules[i].demarcation] + Along(m.submodules[i].target, route)
  {
    assert ([i] + route)[1..] == route;
  }

  lemma EarlierThrough(i: nat, a: seq<nat>, b: seq<nat>)
    ensures Earlier([i] + a, [i] + b) <==> Earlier(a, b)
  {
    assert ([i] + a)[1..] == a && ([i] + b)[1..] == b;
  }

  lemma AlongThrough<M, D>(m: Module<M, D>, i: nat, base: seq<D>, entries: seq<Entry<M, D>>, routes: seq<seq<nat>>)
    requires i < |m.submodules|
    requires AlongRoutes(m.submodules[i].target, base + [m.submodules[i].demarcation], entries, routes)
    ensures AlongRoutes(m, base, entries, Through(i, routes))
  {
    var sub, there := m.submodules[i].target, base + [m.submodules[i].demarcation];
    forall k | 0 <= k < |routes|
      ensures IsRoute(m, Through(i, routes)[k])
      ensures entries[k] == Entry(Reached(m, Through(i, routes)[k]), base + Along(m, Through(i, routes)[k]))
    {
      RouteThrough(m, i, routes[k]);
      assert there + Along(sub, routes[k]) == base + ([m.submodules[i].demarcation] + Along(sub, routes[k]));
    }
    forall j, k | 0 <= j < k < |routes|
      ensures Earlier(Through(i, routes)[j], Through(i, routes)[k])
    {
      EarlierThrough(i, routes[j], routes[k]);
    }
  }

  lemma AlongTogether<M, D>(m: Module<M, D>, base: seq<D>, a: seq<Entry<M, D>>, r: seq<seq<nat>>,
                            b: seq<Entry<M, D>>, s: seq<seq<nat>>)
    requires AlongRoutes(m, base, a, r) && AlongRoutes(m, base, b, s)
    requires forall j, k :: 0 <= j < |r| && 0 <= k < |s| ==> Earlier(r[j], s[k])
    ensures AlongRoutes(m, base, a + b, r + s)
  {
    hide IsRoute, Earlier, Reached, Along;
  }

  /** The routes are all those that start with a submodule from number `from` on. */
  ghost predicate AllRoutesFrom<M, D>(m: Module<M, D>, from: nat, routes: seq<seq<nat>>) {
    forall route :: route in routes <==> IsRoute(m, route) && route != [] && route[0] >= from
  }

  lemma AllThroughAndLater<M, D>(m: Module<M, D>, from: nat, routes: seq<seq<nat>>, later: seq<seq<nat>>)
    requires from < |m.submodules| && AllRoutesFrom(m, from + 1, later)
    requires forall route :: route in routes <==> IsRoute(m.submodules[from].target, route)
    ensures AllRoutesFrom(m, from, Through(from, routes) + later)
  {
    forall route
      ensures route in Through(from, routes) <==> IsRoute(m, route) && route != [] && route[0] == from
    {
      if route in Through(from, routes) {
        var k :| 0 <= k < |routes| && Through(from, routes)[k] == route;
        RouteThrough(m, from, routes[k]);
      }
      if IsRoute(m, route) && route != [] && route[0] == from {
        assert route[1..] in routes;
        var k :| 0 <= k < |routes| && routes[k] == route[1..];
        assert Through(from, routes)[k] == route;
      }
    }
    hide IsRoute, Through;
  }

  lemma LaterIsLater<M, D>(m: Module<M, D>, from: nat, here: seq<seq<nat>>, later: seq<seq<nat>>)
    requires AllRoutesFrom(m, from + 1, later)
    ensures forall j, k :: 0 <= j < |Through(from, here)| && 0 <= k < |later| ==>
      Earlier(Through(from, here)[j], later[k])
  {
    hide IsRoute;
    forall j, k | 0 <= j < |Through(from, here)| && 0 <= k < |later|
      ensures Earlier(Through(from, here)[j], later[k])
    {
      assert later[k] in later;
    }
  }

  lemma {:induction false} BelowIsPreOrder<M, D>(m: Module<M, D>, from: nat, base: seq<D>)
    returns (routes: seq<seq<nat>>)
    requires from <= |m.submodules|
    ensures AlongRoutes(m, base, ListingFrom(m, from, base), routes)
    ensures AllRoutesFrom(m, from, routes)
    decreases m, |m.submodules| - from
  {
    routes := [];
    if from < |m.submodules| {
      var sub := m.submodules[from];
      var there := base + [sub.demarcation];
      var here := ListingIsPreOrder(sub.target, there);
      var later := BelowIsPreOrder(m, from + 1, base);
      AlongThrough(m, from, base, Listing(sub.target, there), here);
      AllThroughAndLater(m, from, here, later);
      LaterIsLater(m, from, here, later);
      AlongTogether(m, base, Listing(sub.target, there), Through(from, here), ListingFrom(m, from + 1, base), later);
      routes := Through(from, here) + later;
      hide IsRoute, Reached, Along, Through, AlongRoutes, AllRoutesFrom;
    }
  }

  lemma StartsAtTheTop<M, D>(m: Module<M, D>, base: seq<D>)
    ensures AlongRoutes(m, base, [Entry(m, base)], [[]])
  {
    assert base + [] == base;
  }

  /**
   The listing is the pre-order one: it has the module at the end of every route, once for each and with the
   demarcations along it, modules before what is below them and submodules in their order.
   */
  lemma {:induction false} ListingIsPreOrder<M, D>(m: Module<M, D>, base: seq<D>) returns (routes: seq<seq<nat>>)
    ensures AlongRoutes(m, base, Listing(m, base), routes)
    ensures forall route :: route in routes <==> IsRoute(m, route)
    decreases m, |m.submodules| + 1
  {
    var below := BelowIsPreOrder(m, 0, base);
    routes := [[]] + below;
    StartsAtTheTop(m, base);
    forall k | 0 <= k < |below|
      ensures Earlier([], below[k])
    {
      assert below[k] in below;
    }
    AlongTogether(m, base, [Entry(m, base)], [[]], ListingFrom(m, 0, base), below);
    forall route
      ensures route in routes <==> IsRoute(m, route)
    {
      assert route in routes <==> route == [] || route in below;
    }
  }

  // ----- paths

  /** Whether the submodules' demarcations lead from `m` along `path` to `target`. */
  ghost predicate Leads<M, D>(m: Module<M, D>, path: seq<D>, target: Module<M, D>)
    decreases |path|
  {
    if path == [] then m == target
    else exists i :: 0 <= i < |m.submodules| && m.submodules[i].demarcation == path[0]
                  && Leads(m.submodules[i].target, path[1..], target)
  }

  /** The listing has exactly the modules that paths lead to. */
  lemma {:induction false} ListingHasWhatPathsLeadTo<M, D>(m: Module<M, D>, base: seq<D>, path: seq<D>,
                                                           target: Module<M, D>)
    ensures Entry(target, base + path) in Listing(m, base) <==> Leads(m, path, target)
    decreases m, |m.submodules| + 1
  {
    ListedBelow(m, 0, base, path, target);
    if path == [] {
      assert base + path == base;
    } else {
      assert base + path != base;
    }
  }

  /** Everything listed under a module has a path that goes on from the module's own. */
  lemma {:induction false} ListedUnder<M, D>(m: Module<M, D>, base: seq<D>, e: Entry<M, D>)
    ensures e in Listing(m, base) ==> base <= e.path
    ensures forall from :: 0 <= from <= |m.submodules| && e in ListingFrom(m, from, base) ==> |e.path| > |base|
    decreases m
  {
    var from := |m.submodules|;
    while from > 0
      invariant 0 <= from <= |m.submodules|
      invariant forall k :: from <= k <= |m.submodules| && e in ListingFrom(m, k, base) ==>
        base <= e.path && |e.path| > |base|
    {
      from := from - 1;
      var sub := m.submodules[from];
      ListedUnder(sub.target, base + [sub.demarcation], e);
    }
    assert e in Listing(m, base) ==> e == Entry(m, base) || e in ListingFrom(m, 0, base);
  }

  lemma {:induction false} ListedBelow<M, D>(m: Module<M, D>, from: nat, base: seq<D>, path: seq<D>,
                                             target: Module<M, D>)
    requires from <= |m.submodules|
    ensures Entry(target, base + path) in ListingFrom(m, from, base) <==>
      path != [] && exists i :: from <= i < |m.submodules| && m.submodules[i].demarcation == path[0]
                             && Leads(m.submodules[i].target, path[1..], target)
    decreases m, |m.submodules| - from
  {
    if from < |m.submodules| {
      var sub := m.submodules[from];
      var there := base + [sub.demarcation];
      ListedBelow(m, from + 1, base, path, target);
      if path != [] && path[0] == sub.demarcation {
        ListingHasWhatPathsLeadTo(sub.target, there, path[1..], target);
        assert there + path[1..] == base + path;
      } else {
        ListedUnder(sub.target, there, Entry(target, base + path));
        if path != [] {
          assert (base + path)[|base|] == path[0] && there[|base|] == sub.demarcation;
        }
      }
    }
  }

  ghost predicate SameReturns<M, D>(methods: seq<Method<M, D>>) {
    forall i, j :: 0 <= i < |methods| && 0 <= j < |methods| && methods[i].demarcation == methods[j].demarcation
      ==> methods[i].target == methods[j].target
  }

  /** A demarcation is a method, so two uses of it in one module return the same. */
  ghost predicate Coherent<M, D>(m: Module<M, D>) {
    && SameReturns(Methods(m))
    && (forall i :: 0 <= i < |m.submodules| ==> Coherent(m.submodules[i].target))
    && forall i :: 0 <= i < |m.others| ==> Coherent(m.others[i].target)
  }

  lemma {:induction false} InvokeFindsFirst<M, D>(methods: seq<Method<M, D>>, demarcation: D) returns (i: nat)
    ensures match Invoke(methods, demarcation)
      case None => forall k :: 0 <= k < |methods| ==> methods[k].demarcation != demarcation
      case Some(target) => i < |methods| && methods[i] == Method(demarcation, target)
  {
    i := 0;
    if methods != [] && methods[0].demarcation != demarcation {
      i := InvokeFindsFirst(methods[1..], demarcation);
      assert forall k :: 0 < k < |methods| ==> methods[k] == methods[1..][k - 1];
      i := i + 1;
    }
  }

  /** All along the path the demarcations are those of submodules. */
  ghost predicate AllListed<M, D>(m: Module<M, D>, path: seq<D>)
    decreases |path|
  {
    path == [] ||
    exists i :: 0 <= i < |m.submodules| && m.submodules[i].demarcation == path[0]
             && AllListed(m.submodules[i].target, path[1..])
  }

  /** A call of a submodule's demarcation returns the submodule. */
  lemma InvokeSubmodule<M, D>(m: Module<M, D>, i: nat)
    requires Coherent(m) && i < |m.submodules|
    ensures Invoke(Methods(m), m.submodules[i].demarcation) == Some(m.submodules[i].target)
    ensures Coherent(m.submodules[i].target)
  {
    var k := InvokeFindsFirst(Methods(m), m.submodules[i].demarcation);
    assert Methods(m)[i] == m.submodules[i];
  }

  /** What the demarcations of submodules lead to is fetched. */
  lemma {:induction false} LeadsIsFetched<M, D>(m: Module<M, D>, path: seq<D>, target: Module<M, D>)
    requires Coherent(m) && path != [] && Leads(m, path, target)
    ensures Fetch(m, path) == Some(target) && AllListed(m, path)
    decreases |path|
  {
    var i :| 0 <= i < |m.submodules| && m.submodules[i].demarcation == path[0]
          && Leads(m.submodules[i].target, path[1..], target);
    InvokeSubmodule(m, i);
    if |path| > 1 {
      LeadsIsFetched(m.submodules[i].target, path[1..], target);
    }
  }

  lemma {:induction false} FetchedIsLedTo<M, D>(m: Module<M, D>, path: seq<D>, target: Module<M, D>)
    requires Coherent(m) && path != [] && AllListed(m, path) && Fetch(m, path) == Some(target)
    ensures Leads(m, path, target)
    decreases |path|
  {
    var i :| 0 <= i < |m.submodules| && m.submodules[i].demarcation == path[0]
          && AllListed(m.submodules[i].target, path[1..]);
    InvokeSubmodule(m, i);
    if |path| > 1 {
      FetchedIsLedTo(m.submodules[i].target, path[1..], target);
    } else {
      assert Leads(m.submodules[i].target, path[1..], target);
    }
  }

  /**
   The listing has a module under a path exactly if the path fetches it and consists of the demarcations of
   submodules.
   */
  lemma FetchFindsWhatIsListed<M, D>(m: Module<M, D>, path: seq<D>, target: Module<M, D>)
    requires Coherent(m) && path != []
    ensures Entry(target, path) in Listing(m, []) <==> Fetch(m, path) == Some(target) && AllListed(m, path)
  {
    if Leads(m, path, target) {
      LeadsIsFetched(m, path, target);
    } else if Fetch(m, path) == Some(target) && AllListed(m, path) {
      FetchedIsLedTo(m, path, target);
    }
    ListingHasWhatPathsLeadTo(m, [], path, target);
    assert [] + path == path;
  }

  /** A method that is not demarcated as a submodule is fetched all the same, and never listed. */
  lemma FetchedYetNotListed<M, D>(m: Module<M, D>, k: nat, target: Module<M, D>)
    requires Coherent(m) && k < |m.others|
    requires forall i :: 0 <= i < |m.submodules| ==> m.submodules[i].demarcation != m.others[k].demarcation
    ensures Fetch(m, [m.others[k].demarcation]) == Some(m.others[k].target)
    ensures Entry(target, [m.others[k].demarcation]) !in Listing(m, [])
  {
    var path := [m.others[k].demarcation];
    var i := InvokeFindsFirst(Methods(m), path[0]);
    assert Methods(m)[|m.submodules| + k] == m.others[k];
    FetchFindsWhatIsListed(m, path, target);
  }

  /** No module has two submodules under the same demarcation. */
  ghost predicate SiblingsDiffer<M, D>(m: Module<M, D>) {
    && (forall i, j :: 0 <= i < j < |m.submodules| ==> m.submodules[i].demarcation != m.submodules[j].demarcation)
    && forall i :: 0 <= i < |m.submodules| ==> SiblingsDiffer(m.submodules[i].target)
  }

  function Paths<M, D>(entries: seq<Entry<M, D>>): seq<seq<D>> {
    seq(|entries|, i requires 0 <= i < |entries| => entries[i].path)
  }

  lemma PathsTogether<M, D>(a: seq<Entry<M, D>>, b: seq<Entry<M, D>>)
    ensures Paths(a + b) == Paths(a) + Paths(b)
  {
  }

  /** Each path is listed once exactly if the demarcations of siblings differ throughout. */
  lemma {:induction false} PathsDifferExactly<M, D>(m: Module<M, D>, base: seq<D>)
    ensures Distinct(Paths(Listing(m, base))) <==> SiblingsDiffer(m)
    decreases m, |m.submodules| + 1
  {
    PathsBelowDifferExactly(m, 0, base);
    PathsTogether([Entry(m, base)], ListingFrom(m, 0, base));
    DistinctTogether(Paths([Entry(m, base)]), Paths(ListingFrom(m, 0, base)));
    assert Paths([Entry(m, base)]) == [base];
    forall x | x in Paths(ListingFrom(m, 0, base))
      ensures x != base
    {
      var k :| 0 <= k < |ListingFrom(m, 0, base)| && ListingFrom(m, 0, base)[k].path == x;
      ListedUnder(m, base, ListingFrom(m, 0, base)[k]);
    }
  }

  ghost predicate SiblingsDifferFrom<M, D>(m: Module<M, D>, from: nat) {
    && (forall i, j :: from <= i < j < |m.submodules| ==> m.submodules[i].demarcation != m.submodules[j].demarcation)
    && forall i :: from <= i < |m.submodules| ==> SiblingsDiffer(m.submodules[i].target)
  }

  lemma {:induction false} HeadIsListed<M, D>(m: Module<M, D>, from: nat, j: nat, base: seq<D>)
    requires from <= j < |m.submodules|
    ensures Entry(m.submodules[j].target, base + [m.submodules[j].demarcation]) in ListingFrom(m, from, base)
    decreases j - from
  {
    if from < j {
      HeadIsListed(m, from + 1, j, base);
    } else {
      var sub := m.submodules[j];
      assert Listing(sub.target, base + [sub.demarcation])[0] == Entry(sub.target, base + [sub.demarcation]);
    }
  }

  lemma {:induction false} BelowStartsWithLater<M, D>(m: Module<M, D>, from: nat, base: seq<D>, e: Entry<M, D>)
    requires from <= |m.submodules| && e in ListingFrom(m, from, base)
    ensures |e.path| > |base|
    ensures exists j :: from <= j < |m.submodules| && e.path[|base|] == m.submodules[j].demarcation
    decreases |m.submodules| - from
  {
    var sub := m.submodules[from];
    var there := base + [sub.demarcation];
    if e in Listing(sub.target, there) {
      ListedUnder(sub.target, there, e);
      assert e.path[|base|] == there[|base|] == sub.demarcation;
    } else {
      BelowStartsWithLater(m, from + 1, base, e);
    }
  }

  ghost predicate Apart<T>(a: seq<T>, b: seq<T>) {
    forall x :: x in b ==> x !in a
  }

  /** A submodule's paths are apart from those of later siblings exactly if its demarcation differs from theirs. */
  lemma BlocksAreApartExactly<M, D>(m: Module<M, D>, from: nat, base: seq<D>)
    requires from < |m.submodules|
    ensures Apart(Paths(Listing(m.submodules[from].target, base + [m.submodules[from].demarcation])),
                  Paths(ListingFrom(m, from + 1, base)))
       <==> (forall j :: from < j < |m.submodules| ==> m.submodules[from].demarcation != m.submodules[j].demarcation)
  {
    var sub := m.submodules[from];
    var there := base + [sub.demarcation];
    var block, rest := Listing(sub.target, there), ListingFrom(m, from + 1, base);
    if j :| from < j < |m.submodules| && sub.demarcation == m.submodules[j].demarcation {
      HeadIsListed(m, from + 1, j, base);
      var k :| 0 <= k < |rest| && rest[k] == Entry(m.submodules[j].target, there);
      assert Paths(rest)[k] == there && Paths(block)[0] == there;
      assert there in Paths(rest) && there in Paths(block);
    } else {
      forall x | x in Paths(rest)
        ensures x !in Paths(block)
      {
        var k :| 0 <= k < |rest| && rest[k].path == x;
        BelowStartsWithLater(m, from + 1, base, rest[k]);
        if x in Paths(block) {
          var l :| 0 <= l < |block| && block[l].path == x;
          ListedUnder(sub.target, there, block[l]);
        }
      }
    }
  }

  lemma {:induction false} PathsBelowDifferExactly<M, D>(m: Module<M, D>, from: nat, base: seq<D>)
    requires from <= |m.submodules|
    ensures Distinct(Paths(ListingFrom(m, from, base))) <==> SiblingsDifferFrom(m, from)
    decreases m, |m.submodules| - from
  {
    if from < |m.submodules| {
      var sub := m.submodules[from];
      var there := base + [sub.demarcation];
      var block, rest := Listing(sub.target, there), ListingFrom(m, from + 1, base);
      PathsDifferExactly(sub.target, there);
      PathsBelowDifferExactly(m, from + 1, base);
      PathsTogether(block, rest);
      DistinctTogether(Paths(block), Paths(rest));
      BlocksAreApartExactly(m, from, base);
    }
  }
}
