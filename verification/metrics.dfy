/**
 * Evaluation of a reconstruction: set-based accuracy and precision against
 * ground-truth edges, forward failure propagation over the edge relation,
 * and the predefined failure scenarios. Ratios are exact reals.
 */
module Metrics {
  import opened Events
  import opened Graph

  datatype ReconstructionMetrics = ReconstructionMetrics(
    accuracy: real,            // fraction of ground-truth edges found (recall)
    precision: real,           // fraction of reconstructed edges that are correct
    falsePositives: nat,
    falseNegatives: nat,
    traceCompleteness: real,   // fraction of the expected events captured
    numEvents: int,
    numReconstructedEdges: nat,
    numGroundTruthEdges: nat
  )

  /** `num_events / expected_event_count`, or 1.0 when nothing is expected. */
  function Completeness(numEvents: int, expectedEventCount: int): (r: real)
    ensures expectedEventCount > 0 ==> r * expectedEventCount as real == numEvents as real
    ensures expectedEventCount <= 0 ==> r == 1.0
    ensures expectedEventCount > 0 && 0 <= numEvents <= expectedEventCount ==> 0.0 <= r <= 1.0
  {
    if expectedEventCount > 0 then numEvents as real / expectedEventCount as real else 1.0
  }

  /**
   * With no ground truth, a reconstruction is perfect exactly when it is
   * empty; otherwise accuracy is recall over the ground truth and precision
   * is the correct fraction of the reconstruction (0 when it is empty).
   */
  function ComputeReconstructionMetrics(reconstructed: set<Pair>, groundTruth: set<Pair>,
                                        numEvents: int, expectedEventCount: int): (m: ReconstructionMetrics)
    ensures m.falsePositives == |reconstructed - groundTruth|
    ensures m.falseNegatives == |groundTruth - reconstructed|
    ensures m.numReconstructedEdges == |reconstructed| && m.numGroundTruthEdges == |groundTruth|
    ensures m.numEvents == numEvents
    ensures m.traceCompleteness == Completeness(numEvents, expectedEventCount)
    ensures groundTruth == {} ==> m.accuracy == m.precision == if reconstructed == {} then 1.0 else 0.0
    ensures groundTruth != {} ==> m.accuracy * |groundTruth| as real == |reconstructed * groundTruth| as real
    ensures groundTruth != {} && reconstructed != {} ==>
              m.precision * |reconstructed| as real == |reconstructed * groundTruth| as real
    ensures groundTruth != {} && reconstructed == {} ==> m.precision == 0.0
  {
    var completeness := Completeness(numEvents, expectedEventCount);
    if groundTruth == {} then
      assert reconstructed - groundTruth == reconstructed;
      ReconstructionMetrics(
        if reconstructed == {} then 1.0 else 0.0,
        if reconstructed == {} then 1.0 else 0.0,
        |reconstructed|, 0, completeness, numEvents, |reconstructed|, 0)
    else
      var truePositives := reconstructed * groundTruth;
      var recall := |truePositives| as real / |groundTruth| as real;
      var precision := if reconstructed != {} then |truePositives| as real / |reconstructed| as real else 0.0;
      ReconstructionMetrics(
        recall, precision,
        |reconstructed - groundTruth|, |groundTruth - reconstructed|,
        completeness, numEvents, |reconstructed|, |groundTruth|)
  }

  /** A set splits into its part inside `b` and its part outside. */
  lemma {:induction false} SplitCard(a: set<Pair>, b: set<Pair>)
    ensures |a * b| + |a - b| == |a|
    decreases |a|
  {
    if a != {} {
      var x :| x in a;
      var a' := a - {x};
      SplitCard(a', b);
      if x in b {
        assert a * b == (a' * b) + {x};
        assert a - b == a' - b;
      } else {
        assert a * b == a' * b;
        assert a - b == (a' - b) + {x};
      }
    }
  }

  /** True positives plus false positives are the reconstruction; true positives plus false negatives are the ground truth. */
  lemma MetricsCounts(reconstructed: set<Pair>, groundTruth: set<Pair>, numEvents: int, expectedEventCount: int)
    ensures var m := ComputeReconstructionMetrics(reconstructed, groundTruth, numEvents, expectedEventCount);
            |reconstructed * groundTruth| + m.falsePositives == m.numReconstructedEdges &&
            |reconstructed * groundTruth| + m.falseNegatives == m.numGroundTruthEdges
  {
    SplitCard(reconstructed, groundTruth);
    SplitCard(groundTruth, reconstructed);
    assert groundTruth * reconstructed == reconstructed * groundTruth;
  }

  /** Accuracy and precision are fractions. */
  lemma MetricsBounds(reconstructed: set<Pair>, groundTruth: set<Pair>, numEvents: int, expectedEventCount: int)
    ensures var m := ComputeReconstructionMetrics(reconstructed, groundTruth, numEvents, expectedEventCount);
            0.0 <= m.accuracy <= 1.0 && 0.0 <= m.precision <= 1.0
  {
    var m := ComputeReconstructionMetrics(reconstructed, groundTruth, numEvents, expectedEventCount);
    var tp := |reconstructed * groundTruth|;
    MetricsCounts(reconstructed, groundTruth, numEvents, expectedEventCount);
    if groundTruth != {} {
      FractionBounds(tp, |groundTruth|);
      if reconstructed != {} {
        FractionBounds(tp, |reconstructed|);
      }
    }
  }

  lemma FractionBounds(part: nat, whole: nat)
    requires 0 < whole && part <= whole
    ensures 0.0 <= part as real / whole as real <= 1.0
  {
  }

  /** Both scores are 1.0 exactly when the reconstruction is the ground truth. */
  lemma MetricsPerfect(reconstructed: set<Pair>, groundTruth: set<Pair>, numEvents: int, expectedEventCount: int)
    ensures var m := ComputeReconstructionMetrics(reconstructed, groundTruth, numEvents, expectedEventCount);
            m.accuracy == 1.0 && m.precision == 1.0 <==> reconstructed == groundTruth
  {
    var m := ComputeReconstructionMetrics(reconstructed, groundTruth, numEvents, expectedEventCount);
    var tp := reconstructed * groundTruth;
    MetricsCounts(reconstructed, groundTruth, numEvents, expectedEventCount);
    if groundTruth != {} {
      if m.accuracy == 1.0 && m.precision == 1.0 {
        assert |tp| == |groundTruth| && |groundTruth - reconstructed| == 0;
        assert |tp| == |reconstructed| && |reconstructed - groundTruth| == 0;
        assert groundTruth - reconstructed == {} && reconstructed - groundTruth == {};
      }
      if reconstructed == groundTruth {
        assert tp == groundTruth;
      }
    }
  }

  // ----- Failure propagation -----

  /** The first eight characters of an id (Python's `id[:8]`). */
  function ShortId(id: string): (r: string)
    ensures |r| == if |id| < 8 then |id| else 8
    ensures r <= id
  {
    if |id| <= 8 then id else id[..8]
  }

  /** One entry of the propagation chain. */
  datatype AffectedEvent = AffectedEvent(shortId: string, eventType: string, agent: string, timestamp: real)

  datatype PropagationResult =
    | NotFound
    | Found(numAffectedEvents: nat, affectedAgents: set<string>, chain: seq<AffectedEvent>)

  function Detail(id: string, e: Event): AffectedEvent
  {
    AffectedEvent(ShortId(id), e.eventType, e.agent, e.timestamp)
  }

  /** The chain entries of `path`: in path order, one per id that some event carries (its first such event). */
  function Chain(events: seq<Event>, path: seq<string>): (r: seq<AffectedEvent>)
    ensures |r| <= |path|
  {
    if path == [] then []
    else
      var n := |path| - 1;
      Chain(events, path[..n]) +
        match FindEvent(events, path[n])
        case None => []
        case Some(e) => [Detail(path[n], e)]
  }

  /** Each chain entry describes an event of the log whose id is on the path. */
  lemma {:induction false} ChainSound(events: seq<Event>, path: seq<string>)
    ensures forall c :: c in Chain(events, path) ==>
              exists e :: e in events && e.id in path && c == Detail(e.id, e)
  {
    if path != [] {
      var n := |path| - 1;
      ChainSound(events, path[..n]);
      forall c | c in Chain(events, path)
        ensures exists e :: e in events && e.id in path && c == Detail(e.id, e)
      {
        if c in Chain(events, path[..n]) {
          var e :| e in events && e.id in path[..n] && c == Detail(e.id, e);
          assert e.id in path;
        } else {
          var f := FindEvent(events, path[n]).value;
          assert f.id in path;
        }
      }
    }
  }

  /**
   * Every event of the log whose id is on the path has an entry in the chain:
   * the one describing the first event of the log carrying that id.
   */
  lemma {:induction false} ChainComplete(events: seq<Event>, path: seq<string>, e: Event)
    requires e in events && e.id in path
    ensures e.id in EventIds(events) && Detail(e.id, FindEvent(events, e.id).value) in Chain(events, path)
    ensures exists c :: c in Chain(events, path) && c.shortId == ShortId(e.id)
  {
    var n := |path| - 1;
    var r := Chain(events, path);
    var before := Chain(events, path[..n]);
    assert e.id in EventIds(events);
    if e.id == path[n] {
      var f := FindEvent(events, path[n]).value;
      assert r == before + [Detail(path[n], f)];
      assert Detail(path[n], f) in r;
    } else {
      assert e.id in path[..n] by {
        var k :| 0 <= k < |path| && path[k] == e.id;
        assert path[..n][k] == e.id;
      }
      ChainComplete(events, path[..n], e);
      var c := Detail(e.id, FindEvent(events, e.id).value);
      var tail := match FindEvent(events, path[n])
        case None => []
        case Some(f) => [Detail(path[n], f)];
      assert r == before + tail;
      assert c in before + tail;
    }
  }

  /**
   * A propagation path: starts at the failure, no repeats, holds exactly the
   * ids reachable forwards from it, and lists them in a breadth-first
   * discovery order.
   */
  ghost predicate PropagationOrder(edges: set<Pair>, root: string, path: seq<string>)
  {
    && |path| >= 1 && path[0] == root
    && Distinct(path)
    && (forall v :: v in path <==> Reaches(edges, root, v))
    && DiscoveryOrder(edges, path)
  }

  /** The position of the first id of `s` with an edge to `v`, or |s| when there is none. */
  function FirstParent(edges: set<Pair>, s: seq<string>, v: string): (k: nat)
    ensures k <= |s|
  {
    if s == [] then 0
    else if (s[0], v) in edges then 0
    else 1 + FirstParent(edges, s[1..], v)
  }

  /** `FirstParent` finds an edge into `v` and no id before it has one. */
  lemma {:induction false} FirstParentMeaning(edges: set<Pair>, s: seq<string>, v: string)
    ensures FirstParent(edges, s, v) < |s| ==> (s[FirstParent(edges, s, v)], v) in edges
    ensures forall j :: 0 <= j < FirstParent(edges, s, v) ==> (s[j], v) !in edges
  {
    if s != [] && (s[0], v) !in edges {
      FirstParentMeaning(edges, s[1..], v);
      forall j | 1 <= j < FirstParent(edges, s, v) ensures (s[j], v) !in edges {
        assert s[j] == s[1..][j - 1];
      }
    }
  }

  /**
   * Breadth-first order: every id after the first is found from an earlier
   * one (its first predecessor on the path, which is the id whose expansion
   * queued it), and the positions of those predecessors never decrease
   * along the path. Only the order of siblings found from one id is free.
   */
  ghost predicate DiscoveryOrder(edges: set<Pair>, path: seq<string>)
  {
    && (forall i :: 0 < i < |path| ==> FirstParent(edges, path, path[i]) < i)
    && (forall i :: 0 < i < |path| - 1 ==> FirstParent(edges, path, path[i]) <= FirstParent(edges, path, path[i + 1]))
  }

  /** The discovery order of a path whose ids were all found from ids before `bound`. */
  ghost predicate Layered(edges: set<Pair>, path: seq<string>, bound: nat)
  {
    && DiscoveryOrder(edges, path)
    && (forall i :: 0 < i < |path| ==> FirstParent(edges, path, path[i]) < bound)
  }

  /** Conversely, the first position with an edge into `v` is `FirstParent`. */
  lemma {:induction false} FirstParentIs(edges: set<Pair>, s: seq<string>, v: string, k: nat)
    requires k < |s| && (s[k], v) in edges
    requires forall j :: 0 <= j < k ==> (s[j], v) !in edges
    ensures FirstParent(edges, s, v) == k
  {
    if k > 0 {
      assert (s[0], v) !in edges;
      forall j | 0 <= j < k - 1 ensures (s[1..][j], v) !in edges {
        assert s[1..][j] == s[j + 1];
      }
      FirstParentIs(edges, s[1..], v, k - 1);
    }
  }

  /** Appending to the path does not change the first predecessor of an id that already has one. */
  lemma FirstParentAppend(edges: set<Pair>, s: seq<string>, w: string, v: string)
    requires FirstParent(edges, s, v) < |s|
    ensures FirstParent(edges, s + [w], v) == FirstParent(edges, s, v)
  {
    var k := FirstParent(edges, s, v);
    var t := s + [w];
    FirstParentMeaning(edges, s, v);
    assert t[k] == s[k];
    forall j | 0 <= j < k ensures (t[j], v) !in edges {
      assert t[j] == s[j];
    }
    FirstParentIs(edges, t, v, k);
  }

  /** An id queued while expanding `path[head]` is found from `path[head]`: no earlier id has an edge to it. */
  lemma LayeredAppend(edges: set<Pair>, root: string, path: seq<string>, head: nat, visited: set<string>, v: string)
    requires BfsState(edges, root, path, head, visited) && head < |path|
    requires Layered(edges, path, head + 1)
    requires v !in visited && (path[head], v) in edges
    ensures Layered(edges, path + [v], head + 1)
  {
    var p := path + [v];
    var n := |path|;
    assert forall j :: 0 <= j < head ==> (p[j], v) !in edges by {
      forall j | 0 <= j < head ensures (p[j], v) !in edges {
        assert p[j] == path[j];
      }
    }
    assert p[head] == path[head] && p[n] == v;
    FirstParentIs(edges, p, v, head);
    forall i | 0 < i < n ensures FirstParent(edges, p, p[i]) == FirstParent(edges, path, path[i]) {
      assert p[i] == path[i];
      FirstParentAppend(edges, path, v, path[i]);
    }
  }

  /** The ids a failure can reach (itself included). */
  ghost function ReachableFrom(edges: set<Pair>, root: string): set<string>
  {
    set v | v in {root} + (set e | e in edges :: e.1) && Reaches(edges, root, v)
  }

  lemma {:induction false} DistinctCard(s: seq<string>)
    requires Distinct(s)
    ensures |set v | v in s| == |s|
  {
    if s != [] {
      var n := |s| - 1;
      assert Distinct(s[..n]);
      DistinctCard(s[..n]);
      assert (set v | v in s) == (set v | v in s[..n]) + {s[n]};
      assert s[n] !in s[..n];
    }
  }

  lemma ReachesTarget(edges: set<Pair>, root: string, v: string)
    requires Reaches(edges, root, v) && v != root
    ensures v in (set e | e in edges :: e.1)
  {
    var p :| |p| > 0 && p[0] == root && p[|p| - 1] == v && DirectedPath(edges, p);
    var e := (p[|p| - 2], p[|p| - 1]);
    assert e in edges;
  }

  /** However the search orders siblings, the path has one entry per reachable id. */
  lemma PropagationCount(edges: set<Pair>, root: string, path: seq<string>)
    requires PropagationOrder(edges, root, path)
    ensures |path| == |ReachableFrom(edges, root)|
  {
    DistinctCard(path);
    forall v | v in path ensures v in ReachableFrom(edges, root) {
      if v != root {
        ReachesTarget(edges, root, v);
      }
    }
    assert (set v | v in path) == ReachableFrom(edges, root);
  }

  /** The breadth-first search state: `path[..head]` is expanded, `path[head..]` is the queue. */
  ghost predicate BfsState(edges: set<Pair>, root: string, path: seq<string>, head: nat, visited: set<string>)
  {
    && |path| >= 1 && path[0] == root && head <= |path|
    && (forall v :: v in visited <==> v in path)
    && Distinct(path)
    && (forall i :: 0 <= i < |path| ==> Reaches(edges, root, path[i]))
    && (forall i, e :: 0 <= i < head && e in edges && e.0 == path[i] ==> e.1 in visited)
  }

  ghost function Targets(edges: set<Pair>, root: string): set<string>
  {
    {root} + (set e | e in edges :: e.1)
  }

  lemma StrictSubsetCard(a: set<string>, b: set<string>)
    requires a < b
    ensures |a| < |b|
  {
    assert !(b <= a);
    var x :| x in b && x !in a;
    SubsetCard(a, b - {x});
  }

  /** Expanding `path[head]`: every unvisited successor is visited, queued and appended to the path. */
  method Expand(edges: set<Pair>, current: string, queue: seq<string>, visited: set<string>, path: seq<string>,
                ghost root: string, ghost head: nat)
    returns (queue': seq<string>, visited': set<string>, path': seq<string>)
    requires BfsState(edges, root, path, head, visited) && head < |path| && path[head] == current
    requires queue == path[head + 1..] && visited <= Targets(edges, root)
    requires Layered(edges, path, head)
    ensures BfsState(edges, root, path', head + 1, visited') && queue' == path'[head + 1..]
    ensures Layered(edges, path', head + 1)
    ensures visited <= visited' <= Targets(edges, root)
    ensures visited' == visited ==> |queue'| == |queue|
  {
    queue', visited', path' := queue, visited, path;
    var rest := edges;
    ExpandStart(edges, current, queue, visited, path, root, head);
    while rest != {}
      invariant ExpandInv(edges, current, queue, visited, path, root, head, rest, queue', visited', path')
      decreases |rest|
    {
      var e :| e in rest;
      queue', visited', path' := VisitEdge(edges, current, e, queue, visited, path, root, head, rest, queue', visited', path');
      rest := rest - {e};
    }
    ExpandDone(edges, current, queue, visited, path, root, head, queue', visited', path');
  }

  /** Before any edge is looked at, the loop state is the search state with `path[head]` about to be expanded. */
  lemma ExpandStart(edges: set<Pair>, current: string, queue: seq<string>, visited: set<string>, path: seq<string>,
                    root: string, head: nat)
    requires BfsState(edges, root, path, head, visited) && head < |path| && path[head] == current
    requires queue == path[head + 1..] && visited <= Targets(edges, root)
    requires Layered(edges, path, head)
    ensures ExpandInv(edges, current, queue, visited, path, root, head, edges, queue, visited, path)
  {
  }

  /** Once every edge is looked at, `path[head]` is expanded: its successors are all visited. */
  lemma ExpandDone(edges: set<Pair>, current: string, queue: seq<string>, visited: set<string>, path: seq<string>,
                   root: string, head: nat, queue': seq<string>, visited': set<string>, path': seq<string>)
    requires head < |path| && path[head] == current && |queue| == |path| - head - 1
    requires ExpandInv(edges, current, queue, visited, path, root, head, {}, queue', visited', path')
    ensures BfsState(edges, root, path', head + 1, visited') && queue' == path'[head + 1..]
    ensures Layered(edges, path', head + 1)
    ensures visited <= visited' <= Targets(edges, root)
    ensures visited' == visited ==> |queue'| == |queue|
  {
    assert path'[head] == current;
  }

  /** The state of the edge loop in `Expand`: the successors along the edges outside `rest` are visited. */
  ghost predicate ExpandInv(edges: set<Pair>, current: string, queue: seq<string>, visited: set<string>, path: seq<string>,
                            root: string, head: nat, rest: set<Pair>,
                            queue': seq<string>, visited': set<string>, path': seq<string>)
  {
    && rest <= edges
    && path <= path' && BfsState(edges, root, path', head, visited') && head < |path'|
    && Layered(edges, path', head + 1)
    && queue' == path'[head + 1..] && visited <= visited' <= Targets(edges, root)
    && (visited' == visited ==> |path'| == |path|)
    && (forall e :: e in edges - rest && e.0 == current ==> e.1 in visited')
  }

  /** One edge of the loop in `Expand`: an edge out of `current` to an unvisited id visits and queues it. */
  method VisitEdge(edges: set<Pair>, current: string, e: Pair, ghost queue: seq<string>, ghost visited: set<string>,
                   ghost path: seq<string>, ghost root: string, ghost head: nat, ghost rest: set<Pair>,
                   queue': seq<string>, visited': set<string>, path': seq<string>)
    returns (queue'': seq<string>, visited'': set<string>, path'': seq<string>)
    requires head < |path| && path[head] == current && e in rest
    requires ExpandInv(edges, current, queue, visited, path, root, head, rest, queue', visited', path')
    ensures ExpandInv(edges, current, queue, visited, path, root, head, rest - {e}, queue'', visited'', path'')
  {
    queue'', visited'', path'' := queue', visited', path';
    if e.0 == current && e.1 !in visited' {
      VisitNew(edges, current, e, queue, visited, path, root, head, rest, queue', visited', path');
      queue'', visited'', path'' := queue' + [e.1], visited' + {e.1}, path' + [e.1];
    }
  }

  /** Visiting a new successor of `current` keeps the loop state, with the edge done. */
  lemma VisitNew(edges: set<Pair>, current: string, e: Pair, queue: seq<string>, visited: set<string>,
                 path: seq<string>, root: string, head: nat, rest: set<Pair>,
                 queue': seq<string>, visited': set<string>, path': seq<string>)
    requires head < |path| && path[head] == current && e in rest && e.0 == current && e.1 !in visited'
    requires ExpandInv(edges, current, queue, visited, path, root, head, rest, queue', visited', path')
    ensures ExpandInv(edges, current, queue, visited, path, root, head, rest - {e},
                      queue' + [e.1], visited' + {e.1}, path' + [e.1])
  {
    assert path'[head] == current;
    ReachesStep(edges, root, current, e.1);
    Append(edges, root, path', head, visited', e.1);
    LayeredAppend(edges, root, path', head, visited', e.1);
    assert (path' + [e.1])[head + 1..] == queue' + [e.1];
    assert path <= path' + [e.1];
    assert e.1 in Targets(edges, root);
    forall x | x in edges - (rest - {e}) && x.0 == current ensures x.1 in visited' + {e.1} {
      if x != e {
        assert x in edges - rest;
      }
    }
  }

  lemma Append(edges: set<Pair>, root: string, path: seq<string>, head: nat, visited: set<string>, v: string)
    requires BfsState(edges, root, path, head, visited) && v !in visited && Reaches(edges, root, v)
    ensures BfsState(edges, root, path + [v], head, visited + {v})
  {
    var p := path + [v];
    forall i, j | 0 <= i < j < |p| ensures p[i] != p[j] {
      if j < |path| {
        assert p[i] == path[i] && p[j] == path[j];
      } else {
        assert path[i] in visited;
      }
    }
  }

  /** `path[..head]` is all of `path` and every expanded id's successors are on it: the path is forward-closed. */
  lemma BfsDone(edges: set<Pair>, root: string, path: seq<string>, visited: set<string>)
    requires BfsState(edges, root, path, |path|, visited) && Layered(edges, path, |path|)
    ensures PropagationOrder(edges, root, path)
  {
    assert ForwardClosed(edges, visited) by {
      forall e | e in edges && e.0 in visited ensures e.1 in visited {
        var i :| 0 <= i < |path| && path[i] == e.0;
      }
    }
    forall v ensures v in path <==> Reaches(edges, root, v) {
      if v in path {
        var i :| 0 <= i < |path| && path[i] == v;
      }
      if Reaches(edges, root, v) {
        assert root in visited;
        ForwardClosedHoldsReachable(edges, visited, root, v);
      }
    }
  }

  /** On the chain a -> b -> c -> d, exactly b, c and d are reachable from b. */
  lemma ChainReaches()
    ensures forall v :: Reaches({("a", "b"), ("b", "c"), ("c", "d")}, "b", v) <==> v in {"b", "c", "d"}
  {
    var edges := {("a", "b"), ("b", "c"), ("c", "d")};
    ReachesRefl(edges, "b");
    assert DirectedPath(edges, ["b", "c", "d"]);
    assert DirectedPath(edges, ["b", "c"]);
    assert Reaches(edges, "b", "c") && Reaches(edges, "b", "d");
    forall v | Reaches(edges, "b", v) ensures v in {"b", "c", "d"} {
      ForwardClosedHoldsReachable(edges, {"b", "c", "d"}, "b", v);
    }
  }

  /**
   * On the chain a -> b -> c -> d, a failure at b propagates to c then d:
   * that order is a propagation order and the other order is not.
   */
  lemma ChainPropagationOrder()
    ensures PropagationOrder({("a", "b"), ("b", "c"), ("c", "d")}, "b", ["b", "c", "d"])
    ensures !PropagationOrder({("a", "b"), ("b", "c"), ("c", "d")}, "b", ["b", "d", "c"])
  {
    var edges := {("a", "b"), ("b", "c"), ("c", "d")};
    var path := ["b", "c", "d"];
    ChainReaches();
    assert path[1..] == ["c", "d"] && path[2..] == ["d"];
    assert FirstParent(edges, path, "c") == 0;
    assert FirstParent(edges, path, "d") == 1;
    var other := ["b", "d", "c"];
    assert other[1..] == ["d", "c"] && other[2..] == ["c"];
    assert FirstParent(edges, other, "d") == 2;
  }

  /**
   * On that chain the discovery order is forced: no id has two successors,
   * so `[b, c, d]` is the only propagation order from b.
   */
  lemma ChainPropagationUnique(p: seq<string>)
    requires PropagationOrder({("a", "b"), ("b", "c"), ("c", "d")}, "b", p)
    ensures p == ["b", "c", "d"]
  {
    var edges := {("a", "b"), ("b", "c"), ("c", "d")};
    var s := {"b", "c", "d"};
    ChainReaches();
    DistinctCard(p);
    assert (set v | v in p) == s;
    assert |p| == 3;
    FirstParentMeaning(edges, p, p[1]);
    assert ("b", p[1]) in edges;
    assert p[1] == "c";
    assert p[2] != "b" && p[2] != "c";
  }

  /** Breadth-first search forward from `root`: the discovery-order list of the reachable ids. */
  method Propagate(edges: set<Pair>, root: string) returns (path: seq<string>)
    ensures PropagationOrder(edges, root, path)
  {
    path := [root];
    var queue := [root];
    var visited := {root};
    ghost var head := 0;
    ReachesRefl(edges, root);
    while queue != []
      invariant BfsState(edges, root, path, head, visited) && queue == path[head..]
      invariant Layered(edges, path, head)
      invariant visited <= Targets(edges, root)
      decreases |Targets(edges, root) - visited|, |queue|
    {
      queue, visited, path := Dequeue(edges, root, queue, visited, path, head);
      head := head + 1;
    }
    BfsDone(edges, root, path, visited);
  }

  /** One turn of the search: the head of the queue is expanded; either more ids are visited or the queue shrinks. */
  method Dequeue(edges: set<Pair>, root: string, queue: seq<string>, visited: set<string>, path: seq<string>, ghost head: nat)
    returns (queue': seq<string>, visited': set<string>, path': seq<string>)
    requires BfsState(edges, root, path, head, visited) && queue == path[head..] && queue != []
    requires visited <= Targets(edges, root) && Layered(edges, path, head)
    ensures BfsState(edges, root, path', head + 1, visited') && queue' == path'[head + 1..]
    ensures Layered(edges, path', head + 1)
    ensures visited <= visited' <= Targets(edges, root)
    ensures |Targets(edges, root) - visited'| < |Targets(edges, root) - visited| ||
            (visited' == visited && |queue'| < |queue|)
  {
    var current := queue[0];
    queue', visited', path' := Expand(edges, current, queue[1..], visited, path, root, head);
    if visited' != visited {
      StrictSubsetCard(Targets(edges, root) - visited', Targets(edges, root) - visited);
    }
  }

  /**
   * `check_failure_propagation`: "not found" exactly when no event carries
   * the failure id; otherwise the number of ids reachable forwards from it,
   * the chain of the path's events in discovery order, and their agents.
   */
  method CheckFailurePropagation(edges: set<Pair>, events: seq<Event>, failureId: string)
    returns (result: PropagationResult)
    ensures result.NotFound? <==> failureId !in EventIds(events)
    ensures result.Found? ==>
              result.numAffectedEvents == |ReachableFrom(edges, failureId)| &&
              exists path :: PropagationOrder(edges, failureId, path) &&
                             result.numAffectedEvents == |path| && result.chain == Chain(events, path)
    ensures result.Found? ==> forall a :: a in result.affectedAgents <==> exists c :: c in result.chain && c.agent == a
  {
    if FindEvent(events, failureId).None? {
      return NotFound;
    }
    var path := Propagate(edges, failureId);
    var chain := [];
    for i := 0 to |path|
      invariant chain == Chain(events, path[..i])
    {
      assert path[..i + 1][..i] == path[..i];
      var event := FindEvent(events, path[i]);
      if event.Some? {
        chain := chain + [Detail(path[i], event.value)];
      }
    }
    assert path[..|path|] == path;
    PropagationCount(edges, failureId, path);
    result := Found(|path|, set c | c in chain :: c.agent, chain);
  }

  // ----- Scenarios -----

  /** A named failure scenario; the expected event count is one more than the number of ground-truth edges. */
  datatype FailureScenario = FailureScenario(
    name: string,
    description: string,
    groundTruthEdges: set<Pair>,
    expectedEventCount: nat
  )

  function NewScenario(name: string, description: string, groundTruthEdges: set<Pair>): (s: FailureScenario)
    ensures s.name == name && s.description == description && s.groundTruthEdges == groundTruthEdges
    ensures s.expectedEventCount == |groundTruthEdges| + 1
  {
    FailureScenario(name, description, groundTruthEdges, |groundTruthEdges| + 1)
  }

  /** The predefined scenarios. Their ground-truth literals are written `{}` (with the expected edges only in comments), which is empty. */
  function Scenarios(): (r: map<string, FailureScenario>)
    ensures r.Keys == {"simple_delegation", "cascading_delegation", "parallel_tasks"}
    ensures forall n :: n in r ==> r[n].name == n && r[n].groundTruthEdges == {} && r[n].expectedEventCount == 1
  {
    map[
      "simple_delegation" := NewScenario("simple_delegation", "Agent A delegates to B (2 agents, 1 level)", {}),
      "cascading_delegation" := NewScenario("cascading_delegation", "Agent A -> B -> C (3 agents, 2 levels)", {}),
      "parallel_tasks" := NewScenario("parallel_tasks", "Agent A delegates to B and C in parallel", {})
    ]
  }

  /** `validate_scenario`: the metrics of the reconstruction against the scenario's ground truth and expected count. */
  function ValidateScenario(reconstructed: set<Pair>, scenario: FailureScenario, numEvents: int): (m: ReconstructionMetrics)
    ensures m.numReconstructedEdges == |reconstructed| && m.numGroundTruthEdges == |scenario.groundTruthEdges|
    ensures m.falsePositives == |reconstructed - scenario.groundTruthEdges|
    ensures m.falseNegatives == |scenario.groundTruthEdges - reconstructed|
    ensures m.traceCompleteness == Completeness(numEvents, scenario.expectedEventCount)
    ensures 0.0 <= m.accuracy <= 1.0 && 0.0 <= m.precision <= 1.0
    ensures m == ComputeReconstructionMetrics(reconstructed, scenario.groundTruthEdges, numEvents, scenario.expectedEventCount)
  {
    MetricsBounds(reconstructed, scenario.groundTruthEdges, numEvents, scenario.expectedEventCount);
    ComputeReconstructionMetrics(reconstructed, scenario.groundTruthEdges, numEvents, scenario.expectedEventCount)
  }

  /**
   * Every predefined scenario is validated through the empty-ground-truth
   * branch with one expected event: perfect only for an empty
   * reconstruction, every reconstructed edge a false positive.
   */
  lemma PredefinedScenariosValidate(name: string, reconstructed: set<Pair>, numEvents: int)
    requires name in Scenarios()
    ensures var m := ValidateScenario(reconstructed, Scenarios()[name], numEvents);
            m.accuracy == m.precision == (if reconstructed == {} then 1.0 else 0.0) &&
            m.falsePositives == |reconstructed| && m.falseNegatives == 0 &&
            m.numGroundTruthEdges == 0 && m.traceCompleteness == numEvents as real
  {
    var s := Scenarios()[name];
    assert s.groundTruthEdges == {} && s.expectedEventCount == 1;
  }
}
