/** Load order of plugins: the depth-first topological sort of
    `PluginLoader._topo_sort`, whose nested `visit` shares two sets and a list. */
module PluginOrder {

  type Id = string

  /** A plugin found on disk: its manifest's id and requirements, and its directory. */
  datatype Plugin = Plugin(id: Id, needs: seq<Id>, directory: string)

  /** The `by_id` dictionary. */
  type Graph = map<Id, Plugin>

  /** How a visit ends: normally, or by raising with the path it reports as a cycle. */
  datatype Outcome = Done | CycleError(path: seq<Id>)

  /** `{m.id: (m, d) for m, d in items}`: of two plugins with one id, the later stays. */
  function ById(items: seq<Plugin>): (g: Graph)
    ensures WellKeyed(g)
    ensures g.Keys == Ids(items)
  {
    if items == [] then map[]
    else
      var last := items[|items| - 1];
      var init := items[..|items| - 1];
      IdsAppend(init, last);
      assert init + [last] == items;
      ById(init)[last.id := last]
  }

  /** Of several plugins with one id, the last stays. */
  lemma {:induction false} LastPluginStays(items: seq<Plugin>, i: nat)
    requires i < |items| && forall j :: i < j < |items| ==> items[j].id != items[i].id
    ensures items[i].id in ById(items) && ById(items)[items[i].id] == items[i]
  {
    if i < |items| - 1 { LastPluginStays(items[..|items| - 1], i); }
  }

  predicate WellKeyed(g: Graph) {
    forall n :: n in g ==> g[n].id == n
  }

  // ---- Reachability through `requires` ------------------------------------------------

  predicate Link(g: Graph, a: Id, b: Id) {
    a in g && b in g && b in g[a].needs
  }

  predicate LinkAt(g: Graph, p: seq<Id>, i: int)
    requires 0 <= i < |p| - 1
  {
    Link(g, p[i], p[i + 1])
  }

  /** `p` follows `requires` edges between present plugins. */
  ghost predicate Chain(g: Graph, p: seq<Id>) {
    && |p| > 0
    && p[0] in g
    && forall i :: 0 <= i < |p| - 1 ==> LinkAt(g, p, i)
  }

  /** A chain from `a` that runs into a node it has already met. */
  ghost predicate Lasso(g: Graph, a: Id, p: seq<Id>) {
    && Chain(g, p)
    && p[0] == a
    && exists k :: 0 <= k < |p| - 1 && p[k] == p[|p| - 1]
  }

  ghost predicate ReachesCycle(g: Graph, a: Id) {
    exists p :: Lasso(g, a, p)
  }

  ghost predicate AllReachCycle(g: Graph, s: set<Id>) {
    forall n :: n in s ==> ReachesCycle(g, n)
  }

  function Elems(stack: seq<Id>): set<Id> {
    set n | n in stack
  }

  /** `node` is the next name on a walk that has come down `stack`. */
  ghost predicate Follows(g: Graph, stack: seq<Id>, node: Id) {
    stack == [] ||
    (var last := stack[|stack| - 1]; Chain(g, stack) && last in g && node in g[last].needs)
  }

  lemma ChainMembers(g: Graph, p: seq<Id>, i: int)
    requires Chain(g, p)
    requires 0 <= i < |p|
    ensures p[i] in g
  {
    if i > 0 { assert LinkAt(g, p, i - 1); }
  }

  lemma ChainSuffix(g: Graph, p: seq<Id>, i: int)
    requires Chain(g, p)
    requires 0 <= i < |p|
    ensures Chain(g, p[i..])
  {
    var q := p[i..];
    ChainMembers(g, p, i);
    forall k | 0 <= k < |q| - 1 ensures LinkAt(g, q, k) {
      assert LinkAt(g, p, i + k);
    }
  }

  lemma ChainJoin(g: Graph, p: seq<Id>, q: seq<Id>)
    requires Chain(g, p) && Chain(g, q)
    requires Link(g, p[|p| - 1], q[0])
    ensures Chain(g, p + q)
  {
    var r := p + q;
    forall k | 0 <= k < |r| - 1 ensures LinkAt(g, r, k) {
      if k < |p| - 1 { assert LinkAt(g, p, k); }
      else if k >= |p| { assert LinkAt(g, q, k - |p|); }
    }
  }

  /** Whatever leads by a chain to a node that reaches a cycle reaches it too. */
  lemma ChainToCycle(g: Graph, stack: seq<Id>, node: Id, i: int)
    requires Chain(g, stack)
    requires Link(g, stack[|stack| - 1], node)
    requires ReachesCycle(g, node)
    requires 0 <= i < |stack|
    ensures ReachesCycle(g, stack[i])
  {
    var p :| Lasso(g, node, p);
    var k :| 0 <= k < |p| - 1 && p[k] == p[|p| - 1];
    ChainSuffix(g, stack, i);
    ChainJoin(g, stack[i..], p);
    var q := stack[i..] + p;
    assert q[|stack| - i + k] == q[|q| - 1];
    assert Lasso(g, stack[i], q);
  }

  /** A node met again on the stack closes a cycle. */
  lemma OnStackIsCycle(g: Graph, stack: seq<Id>, node: Id)
    requires Chain(g, stack)
    requires Link(g, stack[|stack| - 1], node)
    requires node in stack
    ensures ReachesCycle(g, node)
  {
    var k :| 0 <= k < |stack| && stack[k] == node;
    ChainSuffix(g, stack, k);
    ChainJoin(g, stack[k..], [node]);
    var q := stack[k..] + [node];
    assert q[0] == q[|q| - 1];
    assert Lasso(g, node, q);
  }

  // ---- Topological orders -------------------------------------------------------------

  function Ids(order: seq<Plugin>): set<Id> {
    set i | 0 <= i < |order| :: order[i].id
  }

  function PresentNeeds(g: Graph, p: Plugin): set<Id> {
    set r | r in p.needs && r in g
  }

  /** Every entry is the dictionary's own, is new, and comes after its present needs. */
  ghost predicate Topological(g: Graph, order: seq<Plugin>) {
    order == [] ||
    (var k := |order| - 1;
     var d := order[k];
     && Topological(g, order[..k])
     && d.id in g && g[d.id] == d
     && d.id !in Ids(order[..k])
     && PresentNeeds(g, d) <= Ids(order[..k]))
  }

  lemma IdsAppend(order: seq<Plugin>, d: Plugin)
    ensures Ids(order + [d]) == Ids(order) + {d.id}
  {
    var o := order + [d];
    forall n | n in Ids(order) + {d.id} ensures n in Ids(o) {
      if n == d.id { assert o[|order|].id == n; }
      else {
        var i :| 0 <= i < |order| && order[i].id == n;
        assert o[i].id == n;
      }
    }
  }

  lemma TopologicalAppend(g: Graph, order: seq<Plugin>, d: Plugin)
    requires Topological(g, order)
    requires d.id in g && g[d.id] == d && d.id !in Ids(order)
    requires PresentNeeds(g, d) <= Ids(order)
    ensures Topological(g, order + [d])
  {
    assert (order + [d])[..|order|] == order;
  }

  /** Where an id stands in the order. */
  ghost function Position(order: seq<Plugin>, n: Id): (k: nat)
    requires n in Ids(order)
    ensures k < |order| && order[k].id == n
  {
    var last := |order| - 1;
    if order[last].id == n then last
    else
      assert n in Ids(order[..last]) by {
        var i :| 0 <= i < |order| && order[i].id == n;
        assert order[..last][i].id == n;
      }
      Position(order[..last], n)
  }

  /** A load order as a reader states it: the dictionary's own entries, each id once, each
      entry after all its present requirements. */
  ghost predicate LoadOrder(g: Graph, order: seq<Plugin>) {
    && (forall i :: 0 <= i < |order| ==> order[i].id in g && g[order[i].id] == order[i])
    && (forall i, j :: 0 <= i < j < |order| ==> order[i].id != order[j].id)
    && (forall i, r :: 0 <= i < |order| && r in order[i].needs && r in g ==> r in Ids(order[..i]))
  }

  lemma {:induction false} TopologicalReads(g: Graph, order: seq<Plugin>)
    requires Topological(g, order)
    ensures LoadOrder(g, order)
  {
    if order != [] {
      var k := |order| - 1;
      var init := order[..k];
      TopologicalReads(g, init);
      forall i, j | 0 <= i < j < |order| ensures order[i].id != order[j].id {
        if j == k { assert init[i].id in Ids(init); }
        else { assert init[i].id != init[j].id; }
      }
      forall i, r | 0 <= i < |order| && r in order[i].needs && r in g
        ensures r in Ids(order[..i])
      {
        if i == k {
          assert r in PresentNeeds(g, order[k]);
        } else {
          assert init[i] == order[i] && init[..i] == order[..i];
        }
      }
    }
  }

  /** A present requirement of a placed plugin is placed, and earlier. */
  lemma {:induction false} NeedComesEarlier(g: Graph, order: seq<Plugin>, a: Id, b: Id)
    requires Topological(g, order)
    requires a in Ids(order) && Link(g, a, b)
    ensures b in Ids(order) && Position(order, b) < Position(order, a)
  {
    TopologicalReads(g, order);
    var i := Position(order, a);
    assert b in Ids(order[..i]);
    var j :| 0 <= j < i && order[..i][j].id == b;
    assert order[j].id == b;
    var k := Position(order, b);
    assert order[k].id == order[j].id;
  }

  lemma {:induction false} ChainDescends(g: Graph, order: seq<Plugin>, p: seq<Id>, i: int, j: int)
    requires Topological(g, order)
    requires Chain(g, p) && p[0] in Ids(order)
    requires 0 <= i <= j < |p|
    ensures p[i] in Ids(order) && p[j] in Ids(order)
    ensures i < j ==> Position(order, p[j]) < Position(order, p[i])
    decreases j
  {
    if j > 0 {
      ChainDescends(g, order, p, if i < j then i else j - 1, j - 1);
      assert LinkAt(g, p, j - 1);
      NeedComesEarlier(g, order, p[j - 1], p[j]);
    }
  }

  /** Nothing in a topological order reaches a cycle. */
  lemma PlacedIsAcyclic(g: Graph, order: seq<Plugin>, n: Id)
    requires Topological(g, order)
    requires n in Ids(order)
    ensures !ReachesCycle(g, n)
  {
    forall p | Lasso(g, n, p) ensures false {
      var k :| 0 <= k < |p| - 1 && p[k] == p[|p| - 1];
      ChainDescends(g, order, p, k, |p| - 1);
    }
  }

  // ---- The sort -----------------------------------------------------------------------

  class Sorter {
    const byId: Graph
    var visiting: set<Id>
    var visited: set<Id>
    var order: seq<Plugin>

    constructor (items: seq<Plugin>)
      ensures byId == ById(items)
      ensures visiting == {} && visited == {} && order == []
    {
      byId := ById(items);
      visiting, visited, order := {}, {}, [];
    }

    /** What every moment of the sort keeps. */
    ghost predicate Valid()
      reads this
    {
      && WellKeyed(byId)
      && Topological(byId, order)
      && visited == Ids(order)
      && visited <= byId.Keys
      && visiting <= byId.Keys
      && visiting !! visited
    }

    /** `visit`. `stack` is the path walked so far; `stuck` are the nodes that earlier
        failed visits left behind in `visiting`. A normal return restores `visiting` and
        has placed the node; an error leaves in `visiting` only nodes that reach a cycle,
        this one among them, and reports a dependency path that ends at such a node. That
        path closes a cycle exactly if its end was not left behind by an earlier visit. */
    method Visit(node: Id, stack: seq<Id>, ghost stuck: set<Id>) returns (r: Outcome)
      requires Valid()
      requires visiting == stuck + Elems(stack) && stuck !! Elems(stack) && NoRepeats(stack)
      requires AllReachCycle(byId, stuck)
      requires Follows(byId, stack, node)
      modifies this
      ensures Valid()
      ensures old(order) <= order
      ensures r.Done? ==> visiting == old(visiting) && (node in byId ==> node in visited)
      ensures r.CycleError? ==> old(visiting) <= visiting && node in visiting
      ensures r.CycleError? ==> AllReachCycle(byId, visiting)
      ensures r.CycleError? ==> stack + [node] <= r.path && Chain(byId, r.path) &&
                                ReachesCycle(byId, r.path[|r.path| - 1])
      ensures r.CycleError? ==> Reported(r.path, stuck, visiting)
      decreases byId.Keys - visiting
    {
      if node in visited {
        return Done;
      }
      if node in visiting {
        StuckBelow(byId, stack, node, stuck);
        return CycleError(stack + [node]);
      }
      if node !in byId {
        return Done;
      }
      if stack != [] { ChainJoin(byId, stack, [node]); }
      visiting := visiting + {node};
      var plugin := byId[node];
      var i := 0;
      while i < |plugin.needs|
        invariant 0 <= i <= |plugin.needs|
        invariant Valid() && old(order) <= order
        invariant visiting == old(visiting) + {node}
        invariant forall j :: 0 <= j < i && plugin.needs[j] in byId ==> plugin.needs[j] in visited
      {
        assert Elems(stack + [node]) == Elems(stack) + {node};
        var inner := Visit(plugin.needs[i], stack + [node], stuck);
        if inner.CycleError? {
          return inner;
        }
        i := i + 1;
      }
      Place(node);
      return Done;
    }

    /** One round of the outer loop, which logs an error and carries on. */
    method VisitRoot(node: Id) returns (r: Outcome)
      requires Valid() && AllReachCycle(byId, visiting)
      modifies this
      ensures Valid() && AllReachCycle(byId, visiting)
      ensures old(visited) <= visited && old(visiting) <= visiting
      ensures node in byId ==> node in visited + visiting
      ensures r.Done? <==> node !in byId || node in visited
      ensures r.CycleError? ==> Chain(byId, r.path) && r.path[0] == node
      ensures r.CycleError? ==> Reported(r.path, old(visiting), visiting)
    {
      ghost var before := order;
      r := Visit(node, [], visiting);
      assert Ids(before) <= Ids(order) by {
        forall i | 0 <= i < |before| ensures before[i].id in Ids(order) {
          assert before[i] == order[i];
        }
      }
    }

    /** The end of a visit: the node leaves `visiting` and joins the order. */
    method Place(node: Id)
      requires Valid()
      requires node in byId && node in visiting
      requires PresentNeeds(byId, byId[node]) <= visited
      modifies this
      ensures Valid()
      ensures visiting == old(visiting) - {node}
      ensures visited == old(visited) + {node}
      ensures order == old(order) + [byId[node]]
    {
      TopologicalAppend(byId, order, byId[node]);
      IdsAppend(order, byId[node]);
      visiting := visiting - {node};
      visited := visited + {node};
      order := order + [byId[node]];
    }
  }

  ghost predicate NoRepeats(p: seq<Id>) {
    forall i, j :: 0 <= i < j < |p| ==> p[i] != p[j]
  }

  /** The path ends at a node it has already passed. */
  predicate ClosesCycle(path: seq<Id>) {
    path != [] && path[|path| - 1] in path[..|path| - 1]
  }

  /** What an error says when `stuck` was left behind before: the nodes up to the path's end
      are new, each passed once, and now left behind too; and the path closes a cycle
      exactly if its end is not one of `stuck`. */
  ghost predicate Reported(path: seq<Id>, stuck: set<Id>, visiting: set<Id>) {
    && path != []
    && (var init := path[..|path| - 1];
        NoRepeats(init) && stuck !! Elems(init) && visiting == stuck + Elems(init))
    && (ClosesCycle(path) <==> path[|path| - 1] !in stuck)
  }

  /** The reported path need not close a cycle: with a plugin that needs itself listed first,
      the error for another that needs it names the path from the other to it. */
  method ReportsPathIntoCycle() returns (first: Outcome, second: Outcome)
    ensures first == CycleError(["a", "a"]) && ClosesCycle(first.path)
    ensures second == CycleError(["b", "a"]) && !ClosesCycle(second.path)
  {
    var a, b := Plugin("a", ["a"], "plugins/a"), Plugin("b", ["a"], "plugins/b");
    var s := new Sorter([a, b]);
    TwoPlugins(a, b);
    NeedsItself(s.byId, "a");
    first := s.VisitRoot("a");
    if first.Done? { PlacedIsAcyclic(s.byId, s.order, "a"); }
    LoopPath(s.byId, "a", first.path, s.visiting);
    second := s.VisitRoot("b");
    if second.Done? { NeedComesEarlier(s.byId, s.order, "b", "a"); }
    PathIntoLoop(s.byId, "b", "a", second.path, s.visiting);
  }

  lemma TwoPlugins(a: Plugin, b: Plugin)
    requires a.id != b.id
    ensures ById([a, b]) == map[a.id := a, b.id := b]
  {
    assert [a, b][..1] == [a] && [a][..0] == [];
  }

  lemma NeedsItself(g: Graph, a: Id)
    requires Link(g, a, a)
    ensures ReachesCycle(g, a)
  {
    assert Lasso(g, a, [a, a]);
  }

  /** The report for a plugin whose one need is itself. */
  lemma LoopPath(g: Graph, a: Id, path: seq<Id>, visiting: set<Id>)
    requires a in g && g[a].needs == [a]
    requires Chain(g, path) && path[0] == a && Reported(path, {}, visiting)
    ensures path == [a, a] && visiting == {a}
  {
    if |path| > 1 { assert LinkAt(g, path, 0); }
  }

  /** The report for a plugin whose one need is stuck. */
  lemma PathIntoLoop(g: Graph, b: Id, a: Id, path: seq<Id>, visiting: set<Id>)
    requires b in g && g[b].needs == [a] && a != b
    requires Chain(g, path) && path[0] == b && Reported(path, {a}, visiting)
    ensures path == [b, a]
  {
    if |path| > 1 { assert LinkAt(g, path, 0); }
  }

  /** On meeting a node of `visiting`, everything in `visiting` reaches a cycle. */
  lemma StuckBelow(g: Graph, stack: seq<Id>, node: Id, stuck: set<Id>)
    requires AllReachCycle(g, stuck)
    requires node in stuck || node in stack
    requires node in g
    requires Follows(g, stack, node)
    ensures ReachesCycle(g, node)
    ensures AllReachCycle(g, stuck + Elems(stack))
    ensures Chain(g, stack + [node])
  {
    if stack != [] {
      ChainMembers(g, stack, |stack| - 1);
      if node !in stuck { OnStackIsCycle(g, stack, node); }
      ChainJoin(g, stack, [node]);
      forall n | n in stack ensures ReachesCycle(g, n) {
        var i :| 0 <= i < |stack| && stack[i] == n;
        ChainToCycle(g, stack, node, i);
      }
    }
  }

  /** Once everything is either placed or stuck, the two halves are told apart by whether
      they reach a cycle. */
  lemma SplitByCycles(g: Graph, order: seq<Plugin>, stuck: set<Id>)
    requires Topological(g, order)
    requires AllReachCycle(g, stuck)
    requires g.Keys == Ids(order) + stuck
    ensures LoadOrder(g, order)
    ensures forall n :: n in Ids(order) <==> n in g && !ReachesCycle(g, n)
    ensures forall n :: n in stuck <==> n in g && ReachesCycle(g, n)
  {
    TopologicalReads(g, order);
    forall n | n in Ids(order) ensures !ReachesCycle(g, n) {
      PlacedIsAcyclic(g, order, n);
    }
  }

  /** `_topo_sort`. The result is exactly the present plugins that cannot reach a cycle,
      each once and after every present requirement. Failed visits are logged and the
      loop goes on; `stuck` is what they leave in `visiting`, and it is exactly the
      plugins that do reach a cycle. */
  method TopoSort(items: seq<Plugin>) returns (order: seq<Plugin>, stuck: set<Id>)
    ensures LoadOrder(ById(items), order)
    ensures forall n :: n in Ids(order) <==> n in ById(items) && !ReachesCycle(ById(items), n)
    ensures forall n :: n in stuck <==> n in ById(items) && ReachesCycle(ById(items), n)
  {
    var s := new Sorter(items);
    var k := 0;
    while k < |items|
      invariant 0 <= k <= |items|
      invariant s.Valid()
      invariant AllReachCycle(s.byId, s.visiting)
      invariant Ids(items[..k]) <= s.visited + s.visiting
    {
      assert items[..k + 1] == items[..k] + [items[k]];
      IdsAppend(items[..k], items[k]);
      var r := s.VisitRoot(items[k].id);
      k := k + 1;
    }
    assert items[..k] == items;
    order, stuck := s.order, s.visiting;
    SplitByCycles(s.byId, order, stuck);
  }
}
