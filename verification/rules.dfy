/**
 * The three inference rules as functions of the event log and the edge
 * details built so far. Each rule is a left fold in the order the builder
 * visits its candidates, so "skip if present" and "last write wins" mean
 * exactly what they mean in the builder.
 */
module Rules {
  import opened Events
  import opened Graph
  import opened CausalDag

  // ----- Rule 1: delegation -----

  /** The `GOAL_DELEGATED` events, in log order. */
  function Delegations(events: seq<Event>): (r: seq<Event>)
    ensures forall d :: d in r <==> d in events && d.eventType == GoalDelegated
  {
    if events == [] then []
    else
      var last := events[|events| - 1];
      assert forall e :: e in events <==> e in events[..|events| - 1] || e == last;
      Delegations(events[..|events| - 1]) + (if last.eventType == GoalDelegated then [last] else [])
  }

  /** An event of `agent` strictly later than `t`. */
  predicate IsCandidate(e: Event, agent: string, t: real)
  {
    e.agent == agent && e.timestamp > t
  }

  /**
   * The index of the delegation target: among the events of `agent` stamped
   * strictly after `t`, the one with the least timestamp, the first in log
   * order on a tie (Python's `min` keeps the first minimum it meets).
   */
  function EarliestAfter(events: seq<Event>, agent: string, t: real): (r: Option<nat>)
    ensures r.None? <==> forall k :: 0 <= k < |events| ==> !IsCandidate(events[k], agent, t)
    ensures r.Some? ==> r.value < |events| && IsCandidate(events[r.value], agent, t)
    ensures r.Some? ==> forall k :: 0 <= k < |events| && IsCandidate(events[k], agent, t) ==>
                          events[r.value].timestamp <= events[k].timestamp
    ensures r.Some? ==> forall k :: 0 <= k < r.value && IsCandidate(events[k], agent, t) ==>
                          events[r.value].timestamp < events[k].timestamp
  {
    if events == [] then None
    else
      var n := |events| - 1;
      var prev := EarliestAfter(events[..n], agent, t);
      assert forall k :: 0 <= k < n ==> events[..n][k] == events[k];
      if !IsCandidate(events[n], agent, t) then prev
      else if prev.None? then Some(n)
      else if events[n].timestamp < events[prev.value].timestamp then Some(n)
      else prev
  }

  /** The edge rule 1 adds for delegation `d`, if any. */
  function DelegationEdge(events: seq<Event>, d: Event): (r: Option<CausalEdge>)
    ensures r.Some? <==> d.delegateTo.Some? && EarliestAfter(events, d.delegateTo.value, d.timestamp).Some?
    ensures r.Some? ==> r.value.fromEventId == d.id && r.value.reason == Delegation &&
                        r.value.fromAgent == d.agent && r.value.toAgent == d.delegateTo.value &&
                        r.value.toEventId == events[EarliestAfter(events, d.delegateTo.value, d.timestamp).value].id
  {
    match d.delegateTo
    case None => None
    case Some(target) =>
      match EarliestAfter(events, target, d.timestamp)
      case None => None
      case Some(k) => Some(CausalEdge(d.id, events[k].id, Delegation, d.agent, target))
  }

  /** Rule 1 over the delegations `ds`, in order, each through `add_edge`. */
  function ApplyDelegations(events: seq<Event>, ds: seq<Event>, details: EdgeMap): EdgeMap
  {
    if ds == [] then details
    else
      var before := ApplyDelegations(events, ds[..|ds| - 1], details);
      match DelegationEdge(events, ds[|ds| - 1])
      case None => before
      case Some(e) => before[Key(e) := e]
  }

  function DelegationRule(events: seq<Event>, details: EdgeMap): EdgeMap
  {
    ApplyDelegations(events, Delegations(events), details)
  }

  // ----- Rules 2 and 3: adjacent events of one agent -----

  /** Two events adjacent in `agent`'s timestamp-sorted list. */
  datatype Link = Link(agent: string, cur: Event, next: Event)

  function LinkKey(l: Link): Pair
  {
    (l.cur.id, l.next.id)
  }

  /** The agent's events in stable timestamp order. */
  function SortedOf(events: seq<Event>, agent: string): seq<Event>
  {
    SortByTime(EventsOf(events, agent))
  }

  /** The adjacent pairs (s[i], s[i+1]) of `s`, tagged with `agent`. */
  function Links(agent: string, s: seq<Event>): (r: seq<Link>)
    ensures |r| == if |s| < 2 then 0 else |s| - 1
    ensures forall i :: 0 <= i < |r| ==> r[i] == Link(agent, s[i], s[i + 1])
  {
    if |s| < 2 then [] else seq(|s| - 1, i requires 0 <= i < |s| - 1 => Link(agent, s[i], s[i + 1]))
  }

  /** The links of each agent of `agents`, agent by agent. */
  function AgentLinks(events: seq<Event>, agents: seq<string>): seq<Link>
  {
    if agents == [] then []
    else
      var a := agents[|agents| - 1];
      AgentLinks(events, agents[..|agents| - 1]) + Links(a, SortedOf(events, a))
  }

  /** Every adjacent pair the builder visits, in visiting order (agents by first appearance). */
  function AllLinks(events: seq<Event>): seq<Link>
  {
    AgentLinks(events, AgentOrder(events))
  }

  datatype SequencingRule = IntraAgent | Proximity

  /** Rule 3's threshold: 10 milliseconds. */
  const ProximityThreshold: real := 0.01

  /** The link meets the rule's own condition (ignoring whether the pair exists). */
  predicate Qualifies(rule: SequencingRule, l: Link)
  {
    match rule
    case IntraAgent => l.cur.eventType == ReasoningStep
    case Proximity => l.next.timestamp - l.cur.timestamp < ProximityThreshold
  }

  function RuleReason(rule: SequencingRule): string
  {
    match rule
    case IntraAgent => IntraAgentSequence
    case Proximity => InferredByProximity
  }

  function LinkEdge(rule: SequencingRule, l: Link): CausalEdge
  {
    CausalEdge(l.cur.id, l.next.id, RuleReason(rule), l.agent, l.agent)
  }

  /** One visited link: a pair already present is skipped; otherwise the edge is added when the rule's condition holds. */
  function Step(rule: SequencingRule, details: EdgeMap, l: Link): EdgeMap
  {
    if LinkKey(l) in details then details
    else if Qualifies(rule, l) then details[LinkKey(l) := LinkEdge(rule, l)]
    else details
  }

  function FoldLinks(rule: SequencingRule, links: seq<Link>, details: EdgeMap): EdgeMap
  {
    if links == [] then details
    else Step(rule, FoldLinks(rule, links[..|links| - 1], details), links[|links| - 1])
  }

  function IntraAgentRule(events: seq<Event>, details: EdgeMap): EdgeMap
  {
    FoldLinks(IntraAgent, AllLinks(events), details)
  }

  /** Rule 3 fires only when the graph so far has more than one component. */
  ghost function GapCompletionRule(events: seq<Event>, details: EdgeMap): EdgeMap
  {
    if IsConnected(EventIds(events), details.Keys) then details
    else FoldLinks(Proximity, AllLinks(events), details)
  }

  /** The edge details `build` produces: rules 1, 2 and 3 in that order from an empty graph. */
  ghost function BuildSpec(events: seq<Event>): EdgeMap
  {
    GapCompletionRule(events, IntraAgentRule(events, DelegationRule(events, map[])))
  }
}
