/**
 * The builder: three rule passes over a fresh graph, each a loop of
 * `AddEdge` calls. Every pass is proved to leave exactly the edge details
 * its rule function in `Rules` describes.
 */
module DagBuilder {
  import opened Events
  import opened Graph
  import opened CausalDag
  import opened Rules
  import opened Components

  /**
   * One pass over the log building the per-agent lists: agents in order of
   * first appearance, each list in log order.
   */
  method GroupByAgent(events: seq<Event>) returns (agents: seq<string>, groups: map<string, seq<Event>>)
    ensures agents == AgentOrder(events)
    ensures forall a :: a in groups <==> a in agents
    ensures forall a :: a in groups ==> groups[a] == EventsOf(events, a)
  {
    agents, groups := [], map[];
    for i := 0 to |events|
      invariant Grouped(events[..i], agents, groups)
    {
      assert events[..i + 1] == events[..i] + [events[i]];
      agents, groups := AddToGroup(events[..i], events[i], agents, groups);
    }
    assert events[..|events|] == events;
  }

  /** `agents` and `groups` are the grouping of `events`. */
  ghost predicate Grouped(events: seq<Event>, agents: seq<string>, groups: map<string, seq<Event>>)
  {
    && agents == AgentOrder(events)
    && (forall a :: a in groups <==> a in agents)
    && (forall a :: a in groups ==> groups[a] == EventsOf(events, a))
  }

  /** One step of the grouping loop: append `e` to its agent's list, opening the list on first sight. */
  method AddToGroup(events: seq<Event>, e: Event, agents: seq<string>, groups: map<string, seq<Event>>)
    returns (agents': seq<string>, groups': map<string, seq<Event>>)
    requires Grouped(events, agents, groups)
    ensures Grouped(events + [e], agents', groups')
  {
    GroupStep(events, e);
    if e.agent in groups {
      agents', groups' := agents, groups[e.agent := groups[e.agent] + [e]];
    } else {
      agents', groups' := agents + [e.agent], groups[e.agent := [e]];
    }
  }

  /** How the agent order and the per-agent lists grow by one more event. */
  lemma GroupStep(events: seq<Event>, e: Event)
    ensures AgentOrder(events + [e]) ==
              if e.agent in AgentOrder(events) then AgentOrder(events) else AgentOrder(events) + [e.agent]
    ensures EventsOf(events + [e], e.agent) == EventsOf(events, e.agent) + [e]
    ensures forall a :: a != e.agent ==> EventsOf(events + [e], a) == EventsOf(events, a)
    ensures e.agent !in AgentOrder(events) ==> EventsOf(events, e.agent) == []
  {
    assert (events + [e])[..|events|] == events;
    var own := EventsOf(events, e.agent);
    if own != [] {
      assert own[0] in own;
    }
  }

  /** Rule 1: every delegation, in log order, links to the earliest later event of its target agent. */
  method ApplyDelegationRule(dag: CausalDAG)
    requires dag.Valid()
    modifies dag
    ensures dag.Valid()
    ensures dag.edgeDetails == DelegationRule(dag.events, old(dag.edgeDetails))
  {
    var delegations := Delegations(dag.events);
    for j := 0 to |delegations|
      invariant dag.Valid()
      invariant dag.edgeDetails == ApplyDelegations(dag.events, delegations[..j], old(dag.edgeDetails))
    {
      var d := delegations[j];
      assert delegations[..j + 1][..j] == delegations[..j];
      if d.delegateTo.Some? {
        var target := EarliestAfter(dag.events, d.delegateTo.value, d.timestamp);
        if target.Some? {
          dag.AddEdge(d.id, dag.events[target.value].id, Delegation, d.agent, d.delegateTo.value);
        }
      }
    }
    assert delegations[..|delegations|] == delegations;
  }

  lemma FoldLinksSnoc(rule: SequencingRule, links: seq<Link>, l: Link, details: EdgeMap)
    ensures FoldLinks(rule, links + [l], details) == Step(rule, FoldLinks(rule, links, details), l)
  {
    assert (links + [l])[..|links|] == links;
  }

  /** Folding over a concatenation folds the second part over the result of the first. */
  lemma {:induction false} FoldLinksAppend(rule: SequencingRule, xs: seq<Link>, ys: seq<Link>, details: EdgeMap)
    ensures FoldLinks(rule, xs + ys, details) == FoldLinks(rule, ys, FoldLinks(rule, xs, details))
    decreases |ys|
  {
    if ys == [] {
      assert xs + ys == xs;
    } else {
      var n := |ys| - 1;
      FoldLinksAppend(rule, xs, ys[..n], details);
      assert xs + ys == (xs + ys[..n]) + [ys[n]];
      FoldLinksSnoc(rule, xs + ys[..n], ys[n], details);
      FoldLinksSnoc(rule, ys[..n], ys[n], FoldLinks(rule, xs, details));
      assert ys == ys[..n] + [ys[n]];
    }
  }

  lemma AgentLinksSnoc(events: seq<Event>, agents: seq<string>, k: nat)
    requires k < |agents|
    ensures AgentLinks(events, agents[..k + 1]) == AgentLinks(events, agents[..k]) + Links(agents[k], SortedOf(events, agents[k]))
  {
    assert agents[..k + 1][..k] == agents[..k];
  }

  /**
   * The walk shared by rules 2 and 3: for each agent, over its stable
   * timestamp-sorted list, each adjacent pair that is not an edge yet gets
   * one when the rule's condition holds.
   */
  method LinkAdjacent(dag: CausalDAG, rule: SequencingRule)
    requires dag.Valid()
    modifies dag
    ensures dag.Valid()
    ensures dag.edgeDetails == FoldLinks(rule, AllLinks(dag.events), old(dag.edgeDetails))
  {
    var agents, groups := GroupByAgent(dag.events);
    for k := 0 to |agents|
      invariant dag.Valid()
      invariant dag.edgeDetails == FoldLinks(rule, AgentLinks(dag.events, agents[..k]), old(dag.edgeDetails))
    {
      var agent := agents[k];
      ghost var before := dag.edgeDetails;
      LinkAgent(dag, rule, agent, SortByTime(groups[agent]));
      AgentLinksSnoc(dag.events, agents, k);
      FoldLinksAppend(rule, AgentLinks(dag.events, agents[..k]), Links(agent, SortedOf(dag.events, agent)), old(dag.edgeDetails));
    }
    assert agents[..|agents|] == agents;
  }

  /** The inner loop of `LinkAdjacent` over one agent's sorted list. */
  method LinkAgent(dag: CausalDAG, rule: SequencingRule, agent: string, sorted: seq<Event>)
    requires dag.Valid()
    modifies dag
    ensures dag.Valid()
    ensures dag.edgeDetails == FoldLinks(rule, Links(agent, sorted), old(dag.edgeDetails))
  {
    ghost var links := Links(agent, sorted);
    var i := 0;
    while i + 1 < |sorted|
      invariant i <= |links|
      invariant dag.Valid()
      invariant dag.edgeDetails == FoldLinks(rule, links[..i], old(dag.edgeDetails))
    {
      assert links[..i + 1] == links[..i] + [links[i]];
      FoldLinksSnoc(rule, links[..i], links[i], old(dag.edgeDetails));
      VisitPair(dag, rule, agent, sorted[i], sorted[i + 1]);
      i := i + 1;
    }
    assert links[..i] == links;
  }

  /** One adjacent pair: skipped when already an edge, else added when the rule's condition holds. */
  method VisitPair(dag: CausalDAG, rule: SequencingRule, agent: string, cur: Event, next: Event)
    requires dag.Valid()
    modifies dag
    ensures dag.Valid()
    ensures dag.edgeDetails == Step(rule, old(dag.edgeDetails), Link(agent, cur, next))
  {
    if (cur.id, next.id) in dag.edges {
      return;
    }
    var fires := match rule
      case IntraAgent => cur.eventType == ReasoningStep
      case Proximity => next.timestamp - cur.timestamp < ProximityThreshold;
    if fires {
      dag.AddEdge(cur.id, next.id, RuleReason(rule), agent, agent);
    }
  }

  /** Rule 2: a `REASONING_STEP` links to its successor in its agent's sorted list. */
  method ApplyIntraAgentRule(dag: CausalDAG)
    requires dag.Valid()
    modifies dag
    ensures dag.Valid()
    ensures dag.edgeDetails == IntraAgentRule(dag.events, old(dag.edgeDetails))
  {
    LinkAdjacent(dag, IntraAgent);
  }

  /** Rule 3: only when the graph has more than one component, link adjacent same-agent events under 10 ms apart. */
  method ApplyGapCompletion(dag: CausalDAG)
    requires dag.Valid()
    modifies dag
    ensures dag.Valid()
    ensures dag.edgeDetails == GapCompletionRule(dag.events, old(dag.edgeDetails))
  {
    var components := FindComponents(dag.events, dag.edges);
    if |components| <= 1 {
      return;
    }
    LinkAdjacent(dag, Proximity);
  }

  /** `build`: a fresh graph over the log, then rules 1, 2 and 3 in order. */
  method Build(events: seq<Event>) returns (dag: CausalDAG)
    ensures fresh(dag) && dag.Valid() && dag.events == events
    ensures dag.edgeDetails == BuildSpec(events)
    ensures dag.edges == BuildSpec(events).Keys
  {
    dag := new CausalDAG(events);
    ApplyDelegationRule(dag);
    ApplyIntraAgentRule(dag);
    ApplyGapCompletion(dag);
  }
}
