/**
 * `_find_components`: a recursive depth-first search over the edge set,
 * ignoring direction, started from every event not yet visited. The
 * iteration order of the edge set is left unspecified (`:|`).
 */
module Components {
  import opened Events
  import opened Graph

  /** Every node of `s` outside `pending` has all its neighbours in `s`. */
  ghost predicate ClosedExcept(edges: set<Pair>, s: set<string>, pending: set<string>)
  {
    forall e :: e in edges ==>
      (e.0 in s && e.0 !in pending ==> e.1 in s) &&
      (e.1 in s && e.1 !in pending ==> e.0 in s)
  }

  ghost predicate EndpointsIn(edges: set<Pair>, u: set<string>)
  {
    forall e :: e in edges ==> e.0 in u && e.1 in u
  }

  /** The union of a sequence of sets. */
  function Union(sets: seq<set<string>>): set<string>
  {
    if sets == [] then {} else Union(sets[..|sets| - 1]) + sets[|sets| - 1]
  }

  lemma UnionMember(sets: seq<set<string>>, i: nat, v: string)
    requires i < |sets| && v in sets[i]
    ensures v in Union(sets)
  {
    if i < |sets| - 1 {
      UnionMember(sets[..|sets| - 1], i, v);
    }
  }

  /**
   * `dfs(x, component)`: visits `x` and, through the edges at `x`, everything
   * connected to it that is not yet visited. `pending` holds the nodes whose
   * own edge loop is still running further up the call stack; `universe`
   * bounds the recursion.
   */
  method Dfs(edges: set<Pair>, x: string, visited: set<string>, component: set<string>,
             ghost pending: set<string>, ghost universe: set<string>)
    returns (visited': set<string>, component': set<string>)
    requires x in universe && visited <= universe && EndpointsIn(edges, universe)
    requires pending <= visited
    requires ClosedExcept(edges, visited, pending)
    ensures visited <= visited' <= universe && x in visited'
    ensures component' == component + (visited' - visited)
    ensures ClosedExcept(edges, visited', pending)
    ensures forall v :: v in visited' - visited ==> Connected(edges, x, v)
    decreases |universe - visited|, 1
  {
    if x in visited {
      return visited, component;
    }
    visited' := visited + {x};
    component' := component + {x};
    ConnectedRefl(edges, x);
    var rest := edges;
    while rest != {}
      invariant EdgeLoopInv(edges, x, visited, component, pending, universe, rest, visited', component')
      decreases rest
    {
      var e :| e in rest;
      visited', component' := FollowEdge(edges, x, e, visited, component, pending, universe, rest, visited', component');
      rest := rest - {e};
    }
  }

  /**
   * The state of the edge loop in `dfs(x, ...)`: the edges at `x` already
   * taken (those outside `rest`) have both ends visited, and everything
   * visited since the call is connected to `x`.
   */
  ghost predicate EdgeLoopInv(edges: set<Pair>, x: string, visited: set<string>, component: set<string>,
                              pending: set<string>, universe: set<string>, rest: set<Pair>,
                              cur: set<string>, curComponent: set<string>)
  {
    && rest <= edges
    && visited + {x} <= cur <= universe
    && curComponent == component + (cur - visited)
    && ClosedExcept(edges, cur, pending + {x})
    && (forall e :: e in edges && e !in rest && (e.0 == x || e.1 == x) ==> e.0 in cur && e.1 in cur)
    && (forall v :: v in cur - visited ==> Connected(edges, x, v))
  }

  /** One turn of the edge loop: an edge at `x` leads the search to the node at its other end. */
  method FollowEdge(edges: set<Pair>, x: string, e: Pair, ghost visited: set<string>, ghost component: set<string>,
                   ghost pending: set<string>, ghost universe: set<string>, ghost rest: set<Pair>,
                   cur: set<string>, curComponent: set<string>)
    returns (cur': set<string>, curComponent': set<string>)
    requires x in universe && visited <= universe && EndpointsIn(edges, universe)
    requires pending <= visited && x !in visited
    requires e in rest
    requires EdgeLoopInv(edges, x, visited, component, pending, universe, rest, cur, curComponent)
    ensures EdgeLoopInv(edges, x, visited, component, pending, universe, rest - {e}, cur', curComponent')
    decreases |universe - visited|, 0
  {
    cur', curComponent' := cur, curComponent;
    if e.0 == x || e.1 == x {
      var next := if e.0 == x then e.1 else e.0;
      assert Adjacent(edges, x, next);
      assert |universe - cur| < |universe - visited| by {
        assert x in universe - visited && x !in universe - cur;
        SubsetCard(universe - cur, (universe - visited) - {x});
      }
      cur', curComponent' := Dfs(edges, next, cur, curComponent, pending + {x}, universe);
      forall v | v in cur' - cur ensures Connected(edges, x, v) {
        ConnectedPrepend(edges, x, next, v);
      }
    }
  }

  /**
   * The connected components of the graph over the events' ids, edges taken
   * in either direction.
   */
  method FindComponents(events: seq<Event>, edges: set<Pair>) returns (components: seq<set<string>>)
    ensures IsComponentPartition(events, edges, components)
    ensures |components| <= 1 <==> IsConnected(EventIds(events), edges)
  {
    ghost var universe := EventIds(events) + (set e | e in edges :: e.0) + (set e | e in edges :: e.1);
    assert Union([]) == {};
    var visited: set<string> := {};
    components := [];
    ghost var roots: seq<string> := [];
    for i := 0 to |events|
      invariant SearchInv(events, edges, i, visited, components, roots, universe)
    {
      if events[i].id !in visited {
        var component;
        visited, component := NextComponent(events, edges, i, visited, components, roots, universe);
        components := components + [component];
        roots := roots + [events[i].id];
      } else {
        SkipVisited(events, edges, i, visited, components, roots, universe);
      }
    }
    ComponentsMeaning(events, edges, components, roots);
  }

  /**
   * `components` are the connected components of the graph whose nodes are
   * the events' ids (plus any edge endpoint that is not one): non-empty,
   * pairwise disjoint, covering every event id, each one connected inside
   * and with nothing outside it connected to it.
   */
  ghost predicate IsComponentPartition(events: seq<Event>, edges: set<Pair>, components: seq<set<string>>)
  {
    && (forall i :: 0 <= i < |components| ==> components[i] != {})
    && (forall i, j :: 0 <= i < j < |components| ==> components[i] !! components[j])
    && EventIds(events) <= Union(components)
    && (forall v :: v in Union(components) && v !in EventIds(events) ==>
          exists e :: e in edges && (e.0 == v || e.1 == v))
    && (forall i, v, w :: 0 <= i < |components| && v in components[i] && w in components[i] ==>
          Connected(edges, v, w))
    && (forall i, v, w :: 0 <= i < |components| && v in components[i] && Connected(edges, v, w) ==>
          w in components[i])
  }

  /** The state of the search once the first `i` events have been started from. */
  ghost predicate SearchInv(events: seq<Event>, edges: set<Pair>, i: nat, visited: set<string>,
                            components: seq<set<string>>, roots: seq<string>, universe: set<string>)
  {
    && i <= |events|
    && universe == EventIds(events) + (set e | e in edges :: e.0) + (set e | e in edges :: e.1)
    && visited <= universe
    && Union(components) == visited
    && ClosedExcept(edges, visited, {})
    && SearchedFrom(events, edges, components, roots)
    && (forall j :: 0 <= j < i ==> events[j].id in visited)
  }

  lemma SkipVisited(events: seq<Event>, edges: set<Pair>, i: nat, visited: set<string>,
                    components: seq<set<string>>, roots: seq<string>, universe: set<string>)
    requires i < |events| && events[i].id in visited
    requires SearchInv(events, edges, i, visited, components, roots, universe)
    ensures SearchInv(events, edges, i + 1, visited, components, roots, universe)
  {
  }

  /** One top-level search: `component = set(); dfs(event_id, component)`. */
  method NextComponent(events: seq<Event>, edges: set<Pair>, i: nat, visited: set<string>,
                       ghost components: seq<set<string>>, ghost roots: seq<string>, ghost universe: set<string>)
    returns (visited': set<string>, component: set<string>)
    requires i < |events| && events[i].id !in visited
    requires SearchInv(events, edges, i, visited, components, roots, universe)
    ensures SearchInv(events, edges, i + 1, visited', components + [component], roots + [events[i].id], universe)
  {
    var id := events[i].id;
    assert EndpointsIn(edges, universe);
    visited', component := Dfs(edges, id, visited, {}, {}, universe);
    assert component == visited' - visited;
    NewComponent(events, edges, components, roots, visited, visited', id);
  }

  /** What a completed search establishes, from the loop's invariant. */
  lemma ComponentsMeaning(events: seq<Event>, edges: set<Pair>, components: seq<set<string>>, roots: seq<string>)
    requires SearchedFrom(events, edges, components, roots)
    requires EventIds(events) <= Union(components)
    requires Union(components) <= EventIds(events) + (set e | e in edges :: e.0) + (set e | e in edges :: e.1)
    ensures IsComponentPartition(events, edges, components)
    ensures |components| <= 1 <==> IsConnected(EventIds(events), edges)
  {
    RootedComponents(edges, components, roots);
    ClosedComponents(edges, components);
    ComponentCountGate(events, edges, components, roots);
  }

  /** Members of one component are connected to each other, through its root. */
  lemma RootedComponents(edges: set<Pair>, components: seq<set<string>>, roots: seq<string>)
    requires |roots| == |components|
    requires forall k, v :: 0 <= k < |components| && v in components[k] ==> Connected(edges, roots[k], v)
    ensures forall i, v, w :: 0 <= i < |components| && v in components[i] && w in components[i] ==>
              Connected(edges, v, w)
  {
    forall i, v, w | 0 <= i < |components| && v in components[i] && w in components[i]
      ensures Connected(edges, v, w)
    {
      ConnectedSym(edges, roots[i], v);
      ConnectedTrans(edges, v, roots[i], w);
    }
  }

  /** Nothing outside a component is connected to it. */
  lemma ClosedComponents(edges: set<Pair>, components: seq<set<string>>)
    requires forall k :: 0 <= k < |components| ==> ClosedUnder(edges, components[k])
    ensures forall i, v, w :: 0 <= i < |components| && v in components[i] && Connected(edges, v, w) ==>
              w in components[i]
  {
    forall i, v, w | 0 <= i < |components| && v in components[i] && Connected(edges, v, w)
      ensures w in components[i]
    {
      ClosedHoldsConnected(edges, components[i], v, w);
    }
  }

  /**
   * What the components found so far satisfy: each has a root event that
   * every member is connected to, no edge leaves it, and they are disjoint.
   */
  ghost predicate SearchedFrom(events: seq<Event>, edges: set<Pair>, components: seq<set<string>>, roots: seq<string>)
  {
    && |roots| == |components|
    && (forall k :: 0 <= k < |components| ==> roots[k] in components[k] && roots[k] in EventIds(events))
    && (forall k, v :: 0 <= k < |components| && v in components[k] ==> Connected(edges, roots[k], v))
    && (forall k :: 0 <= k < |components| ==> ClosedUnder(edges, components[k]))
    && (forall k, j :: 0 <= k < j < |components| ==> components[k] !! components[j])
  }

  /** A top-level search from an unvisited event adds one more component. */
  lemma NewComponent(events: seq<Event>, edges: set<Pair>, components: seq<set<string>>, roots: seq<string>,
                     visited: set<string>, visited': set<string>, id: string)
    requires SearchedFrom(events, edges, components, roots)
    requires Union(components) == visited && visited <= visited'
    requires id in EventIds(events) && id in visited' - visited
    requires ClosedExcept(edges, visited, {}) && ClosedExcept(edges, visited', {})
    requires forall v :: v in visited' - visited ==> Connected(edges, id, v)
    ensures SearchedFrom(events, edges, components + [visited' - visited], roots + [id])
    ensures Union(components + [visited' - visited]) == visited'
  {
    var c := visited' - visited;
    var cs := components + [c];
    var rs := roots + [id];
    NewComponentClosed(edges, visited, visited');
    UnionDisjoint(components, c);
    assert cs[..|components|] == components;
    forall k | 0 <= k < |cs| ensures rs[k] in cs[k] && rs[k] in EventIds(events) {
      if k < |components| { assert rs[k] == roots[k] && cs[k] == components[k]; }
    }
    forall k, v | 0 <= k < |cs| && v in cs[k] ensures Connected(edges, rs[k], v) {
      if k < |components| { assert rs[k] == roots[k] && cs[k] == components[k]; }
    }
    forall k | 0 <= k < |cs| ensures ClosedUnder(edges, cs[k]) {
      if k < |components| { assert cs[k] == components[k]; }
    }
    forall k, j | 0 <= k < j < |cs| ensures cs[k] !! cs[j] {
      if j < |components| { assert cs[k] == components[k] && cs[j] == components[j]; }
    }
  }

  /** The nodes a top-level search adds form a set that no edge leaves. */
  lemma NewComponentClosed(edges: set<Pair>, visited: set<string>, visited': set<string>)
    requires visited <= visited'
    requires ClosedExcept(edges, visited, {}) && ClosedExcept(edges, visited', {})
    ensures ClosedUnder(edges, visited' - visited)
  {
    forall e | e in edges ensures e.0 in visited' - visited <==> e.1 in visited' - visited {
      assert e.0 in visited <==> e.1 in visited;
      assert e.0 in visited' <==> e.1 in visited';
    }
  }

  lemma UnionDisjoint(sets: seq<set<string>>, c: set<string>)
    requires Union(sets) !! c
    ensures forall k :: 0 <= k < |sets| ==> sets[k] !! c
  {
    forall k, v | 0 <= k < |sets| && v in sets[k] ensures v !in c {
      UnionMember(sets, k, v);
    }
  }

  /** Two disjoint sets that no edge leaves are not connected to each other. */
  lemma SeparateComponents(edges: set<Pair>, c0: set<string>, c1: set<string>, r0: string, r1: string)
    requires ClosedUnder(edges, c0) && c0 !! c1 && r0 in c0 && r1 in c1
    ensures !Connected(edges, r0, r1)
  {
    if Connected(edges, r0, r1) {
      ClosedHoldsConnected(edges, c0, r0, r1);
    }
  }

  /** At most one component exactly when every two events are connected. */
  lemma ComponentCountGate(events: seq<Event>, edges: set<Pair>, components: seq<set<string>>, roots: seq<string>)
    requires EventIds(events) <= Union(components)
    requires |roots| == |components|
    requires forall k :: 0 <= k < |components| ==> roots[k] in components[k] && roots[k] in EventIds(events)
    requires forall k :: 0 <= k < |components| ==> ClosedUnder(edges, components[k])
    requires forall k, j :: 0 <= k < j < |components| ==> components[k] !! components[j]
    requires forall i, v, w :: 0 <= i < |components| && v in components[i] && w in components[i] ==>
               Connected(edges, v, w)
    ensures |components| <= 1 <==> IsConnected(EventIds(events), edges)
  {
    if |components| == 0 {
      assert EventIds(events) == {};
    } else if |components| == 1 {
      assert components[..0] == [];
      assert Union(components) == components[0];
    } else {
      SeparateComponents(edges, components[0], components[1], roots[0], roots[1]);
    }
  }
}
