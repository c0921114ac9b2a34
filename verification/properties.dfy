/**
 * What the graph `build` produces promises: each edge is explained by a
 * delegation or by an adjacent pair of one agent's sorted events, edges only
 * join events of the log, time never runs backwards along an edge, the later
 * rules never overwrite an earlier edge, and (for a log whose ids are
 * unique) the graph is acyclic.
 */
module Properties {
  import opened Events
  import opened Graph
  import opened CausalDag
  import opened Rules

  // ----- The sequencing rules: first rule wins -----

  /** A pair already present keeps its detail through rules 2 and 3. */
  lemma {:induction false} FoldLinksKeeps(rule: SequencingRule, links: seq<Link>, details: EdgeMap, p: Pair)
    requires p in details
    ensures p in FoldLinks(rule, links, details) && FoldLinks(rule, links, details)[p] == details[p]
  {
    if links != [] {
      FoldLinksKeeps(rule, links[..|links| - 1], details, p);
    }
  }

  /** Every pair a sequencing rule adds is a visited link meeting the rule's condition, with the rule's reason. */
  lemma {:induction false} FoldLinksAdds(rule: SequencingRule, links: seq<Link>, details: EdgeMap, p: Pair)
    requires p in FoldLinks(rule, links, details) && p !in details
    ensures exists l :: l in links && LinkKey(l) == p && Qualifies(rule, l) &&
                        FoldLinks(rule, links, details)[p] == LinkEdge(rule, l)
  {
    var n := |links| - 1;
    var before := FoldLinks(rule, links[..n], details);
    var l := links[n];
    if p in before {
      FoldLinksAdds(rule, links[..n], details, p);
      var w :| w in links[..n] && LinkKey(w) == p && Qualifies(rule, w) && before[p] == LinkEdge(rule, w);
      if LinkKey(l) !in before {
        assert LinkKey(l) != p;
      }
      assert w in links;
    } else {
      assert LinkKey(l) == p;
      assert links[n] in links;
    }
  }

  /** Every visited link meeting the rule's condition ends up as a pair (added now or already there). */
  lemma {:induction false} FoldLinksComplete(rule: SequencingRule, links: seq<Link>, details: EdgeMap, l: Link)
    requires l in links && Qualifies(rule, l)
    ensures LinkKey(l) in FoldLinks(rule, links, details)
  {
    var n := |links| - 1;
    var before := FoldLinks(rule, links[..n], details);
    if l != links[n] {
      assert l in links[..n];
      FoldLinksComplete(rule, links[..n], details, l);
    }
  }

  // ----- Where each edge comes from -----

  /** An edge is the delegation edge of a delegation of the log, or a qualifying link edge. */
  ghost predicate Justified(events: seq<Event>, e: CausalEdge)
  {
    || (exists d :: d in events && d.eventType == GoalDelegated && DelegationEdge(events, d) == Some(e))
    || (exists l :: l in AllLinks(events) && Qualifies(IntraAgent, l) && e == LinkEdge(IntraAgent, l))
    || (exists l :: l in AllLinks(events) && Qualifies(Proximity, l) && e == LinkEdge(Proximity, l))
  }

  ghost predicate AllJustified(events: seq<Event>, details: EdgeMap)
  {
    forall p :: p in details ==> Key(details[p]) == p && Justified(events, details[p])
  }

  lemma {:induction false} ApplyDelegationsJustified(events: seq<Event>, ds: seq<Event>, base: EdgeMap)
    requires AllJustified(events, base)
    requires forall d :: d in ds ==> d in events && d.eventType == GoalDelegated
    ensures AllJustified(events, ApplyDelegations(events, ds, base))
  {
    if ds != [] {
      var n := |ds| - 1;
      assert forall d :: d in ds[..n] ==> d in ds;
      ApplyDelegationsJustified(events, ds[..n], base);
      assert ds[n] in ds;
      match DelegationEdge(events, ds[n]) {
        case Some(e) => DelegationKeepsJustified(events, ds[n], ApplyDelegations(events, ds[..n], base));
        case None =>
      }
    }
  }

  /** Adding the delegation edge of a `GOAL_DELEGATED` event keeps every stored detail explained. */
  lemma DelegationKeepsJustified(events: seq<Event>, d: Event, details: EdgeMap)
    requires AllJustified(events, details)
    requires d in events && d.eventType == GoalDelegated && DelegationEdge(events, d).Some?
    ensures var e := DelegationEdge(events, d).value; AllJustified(events, details[Key(e) := e])
  {
    var e := DelegationEdge(events, d).value;
    assert Justified(events, e) by {
      assert d in events && d.eventType == GoalDelegated && DelegationEdge(events, d) == Some(e);
    }
    var after := details[Key(e) := e];
    forall p | p in after ensures Key(after[p]) == p && Justified(events, after[p]) {
      if p != Key(e) {
        assert after[p] == details[p];
      }
    }
  }

  lemma FoldLinksJustified(events: seq<Event>, rule: SequencingRule, details: EdgeMap)
    requires AllJustified(events, details)
    ensures AllJustified(events, FoldLinks(rule, AllLinks(events), details))
  {
    var r := FoldLinks(rule, AllLinks(events), details);
    forall p | p in r ensures Key(r[p]) == p && Justified(events, r[p]) {
      if p in details {
        FoldLinksKeeps(rule, AllLinks(events), details, p);
      } else {
        FoldLinksAdds(rule, AllLinks(events), details, p);
      }
    }
  }

  /** Every detail `build` stores sits under its own endpoints and is explained by one of the three rules. */
  lemma BuildSpecJustified(events: seq<Event>)
    ensures AllJustified(events, BuildSpec(events))
  {
    ApplyDelegationsJustified(events, Delegations(events), map[]);
    var d1 := DelegationRule(events, map[]);
    FoldLinksJustified(events, IntraAgent, d1);
    FoldLinksJustified(events, Proximity, IntraAgentRule(events, d1));
  }

  // ----- Facts about the visited links -----

  /** `cur` is immediately followed by `next` somewhere in `s`. */
  ghost predicate Follows(s: seq<Event>, cur: Event, next: Event)
  {
    exists i :: 0 <= i < |s| - 1 && s[i] == cur && s[i + 1] == next
  }

  lemma {:induction false} AgentLinksFollow(events: seq<Event>, agents: seq<string>, l: Link)
    requires l in AgentLinks(events, agents)
    ensures l.agent in agents
    ensures Follows(SortedOf(events, l.agent), l.cur, l.next)
  {
    var n := |agents| - 1;
    var a := agents[n];
    var s := SortedOf(events, a);
    if l in AgentLinks(events, agents[..n]) {
      AgentLinksFollow(events, agents[..n], l);
      assert agents[..n] <= agents;
    } else {
      assert l in Links(a, s);
      var i :| 0 <= i < |Links(a, s)| && Links(a, s)[i] == l;
      assert s[i] == l.cur && s[i + 1] == l.next;
    }
  }

  /** A visited link joins two events of one agent of the log, the second no earlier than the first. */
  lemma LinkFacts(events: seq<Event>, l: Link)
    requires l in AllLinks(events)
    ensures l.cur in events && l.next in events
    ensures l.cur.agent == l.agent && l.next.agent == l.agent
    ensures l.cur.timestamp <= l.next.timestamp
    ensures Follows(SortedOf(events, l.agent), l.cur, l.next)
  {
    AgentLinksFollow(events, AgentOrder(events), l);
    var s := SortedOf(events, l.agent);
    var i :| 0 <= i < |s| - 1 && s[i] == l.cur && s[i + 1] == l.next;
    assert s[i] in s && s[i + 1] in s;
  }

  /** What an explained edge says about its two endpoint events. */
  ghost predicate EdgeFacts(events: seq<Event>, e: CausalEdge)
  {
    exists f, g :: f in events && g in events &&
      f.id == e.fromEventId && g.id == e.toEventId &&
      f.agent == e.fromAgent && g.agent == e.toAgent &&
      f.timestamp <= g.timestamp &&
      (e.reason == Delegation ==> f.eventType == GoalDelegated && f.timestamp < g.timestamp)
  }

  lemma JustifiedFacts(events: seq<Event>, e: CausalEdge)
    requires Justified(events, e)
    ensures EdgeFacts(events, e)
  {
    if d :| d in events && d.eventType == GoalDelegated && DelegationEdge(events, d) == Some(e) {
      DelegationFacts(events, d);
    } else if l :| l in AllLinks(events) && Qualifies(IntraAgent, l) && e == LinkEdge(IntraAgent, l) {
      LinkEdgeFacts(events, IntraAgent, l);
    } else {
      var l :| l in AllLinks(events) && Qualifies(Proximity, l) && e == LinkEdge(Proximity, l);
      LinkEdgeFacts(events, Proximity, l);
    }
  }

  lemma DelegationFacts(events: seq<Event>, d: Event)
    requires d in events && d.eventType == GoalDelegated && DelegationEdge(events, d).Some?
    ensures EdgeFacts(events, DelegationEdge(events, d).value)
  {
    var k := EarliestAfter(events, d.delegateTo.value, d.timestamp).value;
    assert events[k] in events;
  }

  lemma LinkEdgeFacts(events: seq<Event>, rule: SequencingRule, l: Link)
    requires l in AllLinks(events)
    ensures EdgeFacts(events, LinkEdge(rule, l))
  {
    LinkFacts(events, l);
    assert l.cur in events && l.next in events;
  }

  /**
   * Every edge of the built graph joins two events of the log (none is
   * synthesized), carries its endpoints' agents, and never runs backwards
   * in time; a delegation edge leaves a `GOAL_DELEGATED` event and runs
   * strictly forwards.
   */
  lemma BuildEdgesForward(events: seq<Event>)
    ensures forall p :: p in BuildSpec(events) ==>
              p == Key(BuildSpec(events)[p]) && EdgeFacts(events, BuildSpec(events)[p])
  {
    BuildSpecJustified(events);
    forall p | p in BuildSpec(events) ensures EdgeFacts(events, BuildSpec(events)[p]) {
      JustifiedFacts(events, BuildSpec(events)[p]);
    }
  }

  lemma BuildEdgesJoinEvents(events: seq<Event>)
    ensures forall p :: p in BuildSpec(events) ==> p.0 in EventIds(events) && p.1 in EventIds(events)
  {
    BuildEdgesForward(events);
    forall p | p in BuildSpec(events) ensures p.0 in EventIds(events) && p.1 in EventIds(events) {
      var e := BuildSpec(events)[p];
      var f, g :| f in events && g in events && f.id == e.fromEventId && g.id == e.toEventId;
    }
  }

  /** Each reason names the rule that put the edge there, with that rule's condition. */
  lemma BuildSpecReasons(events: seq<Event>, p: Pair)
    requires p in BuildSpec(events)
    ensures BuildSpec(events)[p].reason == Delegation ==>
              exists d :: d in events && d.eventType == GoalDelegated && DelegationEdge(events, d) == Some(BuildSpec(events)[p])
    ensures BuildSpec(events)[p].reason == IntraAgentSequence ==>
              exists l :: l in AllLinks(events) && LinkKey(l) == p && l.cur.eventType == ReasoningStep
    ensures BuildSpec(events)[p].reason == InferredByProximity ==>
              exists l :: l in AllLinks(events) && LinkKey(l) == p && l.next.timestamp - l.cur.timestamp < ProximityThreshold
    ensures BuildSpec(events)[p].reason in {Delegation, IntraAgentSequence, InferredByProximity}
  {
    BuildSpecJustified(events);
    var e := BuildSpec(events)[p];
    assert Key(e) == p && Justified(events, e);
  }

  // ----- Completeness of the rules -----

  /** Rule 1, under unique ids: every delegation that finds a target contributes exactly its edge to the final graph. */
  lemma DelegationEdgeKept(events: seq<Event>, d: Event)
    requires UniqueIds(events) && d in events && d.eventType == GoalDelegated
    requires DelegationEdge(events, d).Some?
    ensures Key(DelegationEdge(events, d).value) in BuildSpec(events)
    ensures BuildSpec(events)[Key(DelegationEdge(events, d).value)] == DelegationEdge(events, d).value
  {
    var e := DelegationEdge(events, d).value;
    ApplyDelegationsHas(events, Delegations(events), map[], d);
    BuildKeepsRule1(events, Key(e));
  }

  /** Rules 2 and 3 never overwrite a detail that rule 1 stored. */
  lemma BuildKeepsRule1(events: seq<Event>, p: Pair)
    requires p in DelegationRule(events, map[])
    ensures p in BuildSpec(events) && BuildSpec(events)[p] == DelegationRule(events, map[])[p]
  {
    var d1 := DelegationRule(events, map[]);
    var d2 := IntraAgentRule(events, d1);
    FoldLinksKeeps(IntraAgent, AllLinks(events), d1, p);
    FoldLinksKeeps(Proximity, AllLinks(events), d2, p);
    assert BuildSpec(events) == GapCompletionRule(events, d2);
  }

  lemma SameIdSameEvent(events: seq<Event>, a: Event, b: Event)
    requires UniqueIds(events) && a in events && b in events && a.id == b.id
    ensures a == b
  {
    var i :| 0 <= i < |events| && events[i] == a;
    var j :| 0 <= j < |events| && events[j] == b;
    assert events[i].id == events[j].id;
    assert i == j;
  }

  lemma {:induction false} ApplyDelegationsHas(events: seq<Event>, ds: seq<Event>, base: EdgeMap, d: Event)
    requires UniqueIds(events) && d in ds && DelegationEdge(events, d).Some?
    requires forall x :: x in ds ==> x in events
    ensures Key(DelegationEdge(events, d).value) in ApplyDelegations(events, ds, base)
    ensures ApplyDelegations(events, ds, base)[Key(DelegationEdge(events, d).value)] == DelegationEdge(events, d).value
  {
    var n := |ds| - 1;
    var e := DelegationEdge(events, d).value;
    var last := ds[n];
    assert ds[n] in ds;
    if last != d {
      assert d in ds[..n];
      assert forall x :: x in ds[..n] ==> x in ds;
      ApplyDelegationsHas(events, ds[..n], base, d);
      if DelegationEdge(events, last).Some? {
        var e' := DelegationEdge(events, last).value;
        if Key(e') == Key(e) {
          SameIdSameEvent(events, last, d);
        }
      }
    }
  }

  /** Rule 2 is complete: every `REASONING_STEP` is linked to its successor in its agent's sorted list (by rule 2 or an earlier delegation). */
  lemma ReasoningStepsLinked(events: seq<Event>, l: Link)
    requires l in AllLinks(events) && l.cur.eventType == ReasoningStep
    ensures LinkKey(l) in BuildSpec(events)
  {
    var d1 := DelegationRule(events, map[]);
    FoldLinksComplete(IntraAgent, AllLinks(events), d1, l);
    FoldLinksKeeps(Proximity, AllLinks(events), IntraAgentRule(events, d1), LinkKey(l));
  }

  /** Rule 3 is complete when it fires: with more than one component after rules 1 and 2, every close adjacent pair is linked. */
  lemma ProximityLinked(events: seq<Event>, l: Link)
    requires !IsConnected(EventIds(events), IntraAgentRule(events, DelegationRule(events, map[])).Keys)
    requires l in AllLinks(events) && l.next.timestamp - l.cur.timestamp < ProximityThreshold
    ensures LinkKey(l) in BuildSpec(events)
  {
    FoldLinksComplete(Proximity, AllLinks(events), IntraAgentRule(events, DelegationRule(events, map[])), l);
  }

  // ----- Acyclicity -----

  ghost function Lookup(events: seq<Event>, id: string): Event
  {
    match FindEvent(events, id)
    case Some(e) => e
    case None => Event(id, "", "", 0.0, None)
  }

  /** The position of an event in its agent's stable timestamp order. */
  ghost function Pos(events: seq<Event>, id: string): nat
  {
    IndexOfId(SortedOf(events, Lookup(events, id).agent), id)
  }

  /** The strict order every edge follows: by timestamp, then by position in one agent's sorted list. */
  ghost predicate RankLess(events: seq<Event>, a: string, b: string)
  {
    var ea, eb := Lookup(events, a), Lookup(events, b);
    ea.timestamp < eb.timestamp ||
    (ea.timestamp == eb.timestamp && ea.agent == eb.agent && Pos(events, a) < Pos(events, b))
  }

  lemma RankLessTrans(events: seq<Event>, a: string, b: string, c: string)
    requires RankLess(events, a, b) && RankLess(events, b, c)
    ensures RankLess(events, a, c)
  {
  }

  lemma EdgeRankLess(events: seq<Event>, p: Pair)
    requires UniqueIds(events) && p in BuildSpec(events)
    ensures RankLess(events, p.0, p.1)
  {
    BuildSpecJustified(events);
    var e := BuildSpec(events)[p];
    assert Key(e) == p && Justified(events, e);
    JustifiedRankLess(events, e);
  }

  /** Each of the three rules only links an event to one of strictly higher rank. */
  lemma JustifiedRankLess(events: seq<Event>, e: CausalEdge)
    requires UniqueIds(events) && Justified(events, e)
    ensures RankLess(events, e.fromEventId, e.toEventId)
  {
    if d :| d in events && d.eventType == GoalDelegated && DelegationEdge(events, d) == Some(e) {
      DelegationRankLess(events, d);
    } else if l :| l in AllLinks(events) && Qualifies(IntraAgent, l) && e == LinkEdge(IntraAgent, l) {
      LinkRankLess(events, l);
    } else {
      var l :| l in AllLinks(events) && Qualifies(Proximity, l) && e == LinkEdge(Proximity, l);
      LinkRankLess(events, l);
    }
  }

  lemma DelegationRankLess(events: seq<Event>, d: Event)
    requires UniqueIds(events) && d in events && DelegationEdge(events, d).Some?
    ensures RankLess(events, d.id, DelegationEdge(events, d).value.toEventId)
  {
    var k := EarliestAfter(events, d.delegateTo.value, d.timestamp).value;
    FindEventUnique(events, d);
    FindEventUnique(events, events[k]);
  }

  lemma LinkRankLess(events: seq<Event>, l: Link)
    requires UniqueIds(events) && l in AllLinks(events)
    ensures RankLess(events, l.cur.id, l.next.id)
  {
    LinkFacts(events, l);
    FindEventUnique(events, l.cur);
    FindEventUnique(events, l.next);
    var s := SortedOf(events, l.agent);
    var i :| 0 <= i < |s| - 1 && s[i] == l.cur && s[i + 1] == l.next;
    EventsOfUnique(events, l.agent);
    SortByTimeUnique(EventsOf(events, l.agent));
    IndexOfIdUnique(s, i);
    IndexOfIdUnique(s, i + 1);
  }

  /** Along a path of edges that each go up in rank, the rank goes up from end to end. */
  lemma {:induction false} PathRankLess(events: seq<Event>, edges: set<Pair>, q: seq<string>)
    requires forall p :: p in edges ==> RankLess(events, p.0, p.1)
    requires |q| >= 2 && DirectedPath(edges, q)
    ensures RankLess(events, q[0], q[|q| - 1])
    decreases |q|
  {
    assert (q[0], q[1]) in edges;
    if |q| > 2 {
      var rest := q[1..];
      assert DirectedPath(edges, rest) by {
        forall i | 0 <= i < |rest| - 1 ensures (rest[i], rest[i + 1]) in edges {
          assert rest[i] == q[i + 1] && rest[i + 1] == q[i + 2];
        }
      }
      PathRankLess(events, edges, rest);
      RankLessTrans(events, q[0], q[1], q[|q| - 1]);
    }
  }

  /** For a log with unique ids, the built graph has no directed cycle. */
  lemma BuildAcyclic(events: seq<Event>)
    requires UniqueIds(events)
    ensures Acyclic(BuildSpec(events).Keys)
  {
    var edges := BuildSpec(events).Keys;
    forall p | p in edges ensures RankLess(events, p.0, p.1) {
      EdgeRankLess(events, p);
    }
    forall q | |q| >= 2 && DirectedPath(edges, q) ensures q[0] != q[|q| - 1] {
      PathRankLess(events, edges, q);
    }
  }
}
