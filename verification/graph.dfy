/**
 * Graph vocabulary over event identifiers: an edge is an ordered pair
 * (from_id, to_id). Undirected connectivity is what component finding
 * computes; directed reachability is what failure propagation follows.
 */
module Graph {

  type Pair = (string, string)

  /** `v` and `w` are joined by an edge, in either direction. */
  predicate Adjacent(edges: set<Pair>, v: string, w: string)
  {
    (v, w) in edges || (w, v) in edges
  }

  ghost predicate UndirectedPath(edges: set<Pair>, p: seq<string>)
  {
    forall i :: 0 <= i < |p| - 1 ==> Adjacent(edges, p[i], p[i + 1])
  }

  /** `v` and `w` are linked by a chain of edges, ignoring their direction. */
  ghost predicate Connected(edges: set<Pair>, v: string, w: string)
  {
    exists p :: |p| > 0 && p[0] == v && p[|p| - 1] == w && UndirectedPath(edges, p)
  }

  /** Every two of `ids` are connected: the graph over `ids` has at most one component. */
  ghost predicate IsConnected(ids: set<string>, edges: set<Pair>)
  {
    forall v, w :: v in ids && w in ids ==> Connected(edges, v, w)
  }

  lemma ConnectedRefl(edges: set<Pair>, v: string)
    ensures Connected(edges, v, v)
  {
    assert UndirectedPath(edges, [v]);
  }

  /** Connectivity extends by one adjacent node at the front. */
  lemma ConnectedPrepend(edges: set<Pair>, u: string, v: string, w: string)
    requires Adjacent(edges, u, v) && Connected(edges, v, w)
    ensures Connected(edges, u, w)
  {
    var p :| |p| > 0 && p[0] == v && p[|p| - 1] == w && UndirectedPath(edges, p);
    var q := [u] + p;
    forall i | 0 <= i < |q| - 1 ensures Adjacent(edges, q[i], q[i + 1]) {
      if i > 0 {
        assert q[i] == p[i - 1] && q[i + 1] == p[i];
      }
    }
    assert UndirectedPath(edges, q);
  }

  lemma ConnectedSym(edges: set<Pair>, v: string, w: string)
    requires Connected(edges, v, w)
    ensures Connected(edges, w, v)
  {
    var p :| |p| > 0 && p[0] == v && p[|p| - 1] == w && UndirectedPath(edges, p);
    var n := |p|;
    var q := seq(n, i requires 0 <= i < n => p[n - 1 - i]);
    forall i | 0 <= i < n - 1 ensures Adjacent(edges, q[i], q[i + 1]) {
      var j := n - 2 - i;
      assert Adjacent(edges, p[j], p[j + 1]);
    }
    assert UndirectedPath(edges, q);
  }

  lemma ConnectedTrans(edges: set<Pair>, u: string, v: string, w: string)
    requires Connected(edges, u, v) && Connected(edges, v, w)
    ensures Connected(edges, u, w)
  {
    var p :| |p| > 0 && p[0] == u && p[|p| - 1] == v && UndirectedPath(edges, p);
    var q :| |q| > 0 && q[0] == v && q[|q| - 1] == w && UndirectedPath(edges, q);
    var r := p + q[1..];
    forall i | 0 <= i < |r| - 1 ensures Adjacent(edges, r[i], r[i + 1]) {
      if i < |p| - 1 {
        assert r[i] == p[i] && r[i + 1] == p[i + 1];
      } else {
        var j := i - |p| + 1;
        assert r[i] == q[j] && r[i + 1] == q[j + 1];
      }
    }
    assert UndirectedPath(edges, r);
  }

  /** No edge leaves `s`: each edge has both endpoints in `s` or neither. */
  ghost predicate ClosedUnder(edges: set<Pair>, s: set<string>)
  {
    forall e :: e in edges ==> (e.0 in s <==> e.1 in s)
  }

  /** A set that no edge leaves holds everything connected to its members. */
  lemma ClosedHoldsConnected(edges: set<Pair>, s: set<string>, v: string, w: string)
    requires ClosedUnder(edges, s) && v in s && Connected(edges, v, w)
    ensures w in s
  {
    var p :| |p| > 0 && p[0] == v && p[|p| - 1] == w && UndirectedPath(edges, p);
    var i := 0;
    while i < |p| - 1
      invariant 0 <= i <= |p| - 1
      invariant p[i] in s
    {
      assert Adjacent(edges, p[i], p[i + 1]);
      if (p[i], p[i + 1]) in edges {
        assert (p[i], p[i + 1]).0 in s;
      } else {
        assert (p[i + 1], p[i]).1 in s;
      }
      i := i + 1;
    }
  }

  ghost predicate DirectedPath(edges: set<Pair>, p: seq<string>)
  {
    forall i :: 0 <= i < |p| - 1 ==> (p[i], p[i + 1]) in edges
  }

  /** `w` is reachable from `v` following edges forward (zero or more steps). */
  ghost predicate Reaches(edges: set<Pair>, v: string, w: string)
  {
    exists p :: |p| > 0 && p[0] == v && p[|p| - 1] == w && DirectedPath(edges, p)
  }

  lemma ReachesRefl(edges: set<Pair>, v: string)
    ensures Reaches(edges, v, v)
  {
    assert DirectedPath(edges, [v]);
  }

  lemma ReachesStep(edges: set<Pair>, u: string, v: string, w: string)
    requires Reaches(edges, u, v) && (v, w) in edges
    ensures Reaches(edges, u, w)
  {
    var p :| |p| > 0 && p[0] == u && p[|p| - 1] == v && DirectedPath(edges, p);
    var q := p + [w];
    forall i | 0 <= i < |q| - 1 ensures (q[i], q[i + 1]) in edges {
      if i < |p| - 1 {
        assert q[i] == p[i] && q[i + 1] == p[i + 1];
      }
    }
    assert DirectedPath(edges, q);
  }

  /** Every successor of a member of `s` is in `s`. */
  ghost predicate ForwardClosed(edges: set<Pair>, s: set<string>)
  {
    forall e :: e in edges && e.0 in s ==> e.1 in s
  }

  /** A forward-closed set holds everything reachable from its members. */
  lemma ForwardClosedHoldsReachable(edges: set<Pair>, s: set<string>, v: string, w: string)
    requires ForwardClosed(edges, s) && v in s && Reaches(edges, v, w)
    ensures w in s
  {
    var p :| |p| > 0 && p[0] == v && p[|p| - 1] == w && DirectedPath(edges, p);
    var i := 0;
    while i < |p| - 1
      invariant 0 <= i <= |p| - 1
      invariant p[i] in s
    {
      assert (p[i], p[i + 1]) in edges;
      i := i + 1;
    }
  }

  /** No directed path of one or more edges returns to its start. */
  ghost predicate Acyclic(edges: set<Pair>)
  {
    forall p :: |p| >= 2 && DirectedPath(edges, p) ==> p[0] != p[|p| - 1]
  }

  /** Cardinality of a set only grows with inclusion. */
  lemma {:induction false} SubsetCard<T>(a: set<T>, b: set<T>)
    requires a <= b
    ensures |a| <= |b|
    decreases |a|
  {
    if a != {} {
      var x :| x in a;
      SubsetCard(a - {x}, b - {x});
    }
  }
}
