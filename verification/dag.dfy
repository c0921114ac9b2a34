/**
 * The causal graph: the event list, the set of (from_id, to_id) edges and
 * the per-edge details keyed by pair. `add_edge` updates both in place.
 */
module CausalDag {
  import opened Events
  import opened Graph

  const Delegation: string := "delegation"
  const IntraAgentSequence: string := "intra_agent_sequence"
  const InferredByProximity: string := "inferred_by_proximity"
  const Unknown: string := "unknown"

  datatype CausalEdge = CausalEdge(
    fromEventId: string,
    toEventId: string,
    reason: string,
    fromAgent: string,
    toAgent: string
  )

  type EdgeMap = map<Pair, CausalEdge>

  function Key(e: CausalEdge): Pair
  {
    (e.fromEventId, e.toEventId)
  }

  /** The endpoint pairs of the entries of a list. */
  function KeysOf(list: seq<CausalEdge>): set<Pair>
  {
    if list == [] then {} else KeysOf(list[..|list| - 1]) + {Key(list[|list| - 1])}
  }

  lemma {:induction false} KeysOfMembers(list: seq<CausalEdge>)
    ensures forall p :: p in KeysOf(list) <==> exists x :: x in list && Key(x) == p
  {
    if list != [] {
      var n := |list| - 1;
      KeysOfMembers(list[..n]);
      assert forall x :: x in list <==> x in list[..n] || x == list[n];
    }
  }

  /** Each detail is stored under its own endpoints. */
  ghost predicate KeyedByEndpoints(details: EdgeMap)
  {
    forall p :: p in details ==> Key(details[p]) == p
  }

  /** The transport record of `to_dict`: counts and one entry per edge. */
  datatype TransportRecord = TransportRecord(numEvents: nat, numEdges: nat, edges: seq<CausalEdge>)

  class CausalDAG {
    const events: seq<Event>
    var edges: set<Pair>
    var edgeDetails: EdgeMap

    /** The edge set and the detail map stay in sync. */
    ghost predicate Valid()
      reads this
    {
      edges == edgeDetails.Keys && KeyedByEndpoints(edgeDetails)
    }

    constructor (events: seq<Event>)
      ensures Valid()
      ensures this.events == events && edges == {} && edgeDetails == map[]
    {
      this.events := events;
      edges := {};
      edgeDetails := map[];
    }

    /** Inserts the pair and (over)writes its detail: the last write wins. */
    method AddEdge(fromId: string, toId: string, reason: string, fromAgent: string, toAgent: string)
      requires Valid()
      modifies this
      ensures Valid()
      ensures edges == old(edges) + {(fromId, toId)}
      ensures edgeDetails == old(edgeDetails)[(fromId, toId) := CausalEdge(fromId, toId, reason, fromAgent, toAgent)]
      ensures GetEdgeReason(fromId, toId) == reason
      ensures forall p :: p in old(edges) && p != (fromId, toId) ==> edgeDetails[p] == old(edgeDetails)[p]
    {
      edges := edges + {(fromId, toId)};
      edgeDetails := edgeDetails[(fromId, toId) := CausalEdge(fromId, toId, reason, fromAgent, toAgent)];
    }

    /** The stored reason of an edge, or the "unknown" sentinel for a pair that is not an edge. */
    function GetEdgeReason(fromId: string, toId: string): (r: string)
      requires Valid()
      reads this
      ensures (fromId, toId) in edges ==> r == edgeDetails[(fromId, toId)].reason
      ensures (fromId, toId) !in edges ==> r == Unknown
    {
      if (fromId, toId) in edgeDetails then edgeDetails[(fromId, toId)].reason else Unknown
    }

    /**
     * The transport record: event and edge counts and one entry per edge,
     * carrying that edge's reason and agents. Entries come in the (unspecified)
     * iteration order of the edge set.
     */
    method ToDict() returns (record: TransportRecord)
      requires Valid()
      ensures record.numEvents == |events| && record.numEdges == |edges|
      ensures |record.edges| == |edges|
      ensures KeysOf(record.edges) == edges
      ensures forall i, j :: 0 <= i < j < |record.edges| ==> Key(record.edges[i]) != Key(record.edges[j])
      ensures forall x :: x in record.edges ==> Key(x) in edges && x == edgeDetails[Key(x)]
    {
      var list: seq<CausalEdge> := [];
      var rest := edges;
      while rest != {}
        invariant Listed(list, rest)
        decreases |rest|
      {
        var p :| p in rest;
        list := ListEdge(list, rest, p);
        rest := rest - {p};
      }
      record := TransportRecord(|events|, |edges|, list);
    }

    /** `list` holds, once each, the details of the edges outside `rest`. */
    ghost predicate Listed(list: seq<CausalEdge>, rest: set<Pair>)
      reads this
    {
      && rest <= edges
      && |list| + |rest| == |edges|
      && KeysOf(list) == edges - rest
      && (forall i, j :: 0 <= i < j < |list| ==> Key(list[i]) != Key(list[j]))
      && (forall x :: x in list ==> Key(x) in edges && Key(x) in edgeDetails && x == edgeDetails[Key(x)])
    }

    /** One turn of the loop in `to_dict`: the entry for edge `p`. */
    method ListEdge(list: seq<CausalEdge>, ghost rest: set<Pair>, p: Pair) returns (list': seq<CausalEdge>)
      requires Valid() && Listed(list, rest) && p in rest
      ensures Listed(list', rest - {p})
    {
      var entry := if p in edgeDetails then edgeDetails[p] else CausalEdge(p.0, p.1, Unknown, "?", "?");
      assert Key(entry) == p;
      KeysOfMembers(list);
      forall i | 0 <= i < |list| ensures Key(list[i]) != p {
        assert list[i] in list;
      }
      list' := list + [entry];
      assert list'[..|list|] == list;
    }
  }
}
