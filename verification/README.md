# Causal trace reconstruction, modelled in Dafny

This project models the core of a multi-agent tracing tool. The tool reads a
log of semantic events. Each event has an id, an event type, an agent, a
timestamp and, for a delegation, the target agent. From that log it
rebuilds a causal graph with three rules:

- **Rule 1 (delegation):** a `GOAL_DELEGATED` event links to the earliest
  strictly later event of its target agent.
- **Rule 2 (intra-agent sequence):** a `REASONING_STEP` links to its
  successor in its agent's timestamp order.
- **Rule 3 (gap completion):** if rules 1 and 2 leave more than one
  connected component, every pair of adjacent events of one agent less than
  10 ms apart that is not already an edge is linked. Connectivity is checked
  once, before the rule runs, so linking goes on even after the graph has
  become connected.

The project also models:

- the evaluation of a reconstruction against ground-truth edges (accuracy,
  precision, false positives and negatives, trace completeness);
- forward failure propagation along the edges;
- the predefined failure scenarios;
- the ablation study, which drops each event type in turn, rebuilds the
  graph and classifies the type as essential or optional;
- the agent's line-oriented `TOOL_NAME:` / `PARAM_key: value` reply parser.

Modules, one per concern:

- `Events` (`events.dfy`) holds the event record and the log helpers: lookup by id, per-agent lists, agent order and the stable sort by time.
- `Graph` (`graph.dfy`) holds undirected connectivity, directed reachability and acyclicity over `(from_id, to_id)` pairs.
- `CausalDag` (`dag.dfy`) holds the `CausalDAG` class. Its fields `edges` and `edgeDetails` are updated in place by `AddEdge`.
- `Rules` (`rules.dfy`) defines each rule as a function of the log and the edge details so far. `BuildSpec` is the whole build.
- `DagBuilder` (`builder.dfy`) holds the rule passes as loops of `AddEdge` calls. Each pass is proved equal to its rule function.
- `Components` (`components.dfy`) holds the recursive depth-first component search, proved to compute the connected components.
- `Properties` (`properties.dfy`) proves what `build` promises: every edge is justified by a rule, joins events of the log and never runs backwards in time; earlier edges are never overwritten; each rule is complete; a log with unique ids gives an acyclic graph.
- `Metrics` (`metrics.dfy`) holds the reconstruction metrics, the breadth-first failure propagation and the scenarios.
- `Ablation` (`ablation.dfy`) holds the ablation loop and the essential/optional split.
- `ToolCall` (`toolcall.dfy`) holds the reply parser and its string helpers: `split`, `strip` and the `PARAM_` regular expression.

Where a docstring and the code disagree, the model follows the code:

- The delegation rule's docstring says "next REASONING_STEP in agent B". The code links the earliest later event of any type.
- The intra-agent rule's docstring lists the successor types. The code links a `REASONING_STEP` to whatever event follows it.
- The gap-completion comment speaks of connecting events "across components". The code links every close adjacent pair that is not already an edge, whichever components the two events are in.

## Model

| member | source | states |
|---|---|---|
| Events.FindEvent | reconstruction/dag_builder.py:72-77 | None exactly when no event carries the id; otherwise an event of the log with that id, the first one in log order |
| Events.FindEventUnique | reconstruction/dag_builder.py:72-77 | when ids are unique, the lookup returns the one event that carries the id |
| Events.EventsOf | reconstruction/dag_builder.py:157-162 | an agent's list holds exactly the log's events of that agent |
| Events.AgentOrder | reconstruction/dag_builder.py:157-165 | the grouping's keys: every agent of the log, each once |
| Events.SortByTime | reconstruction/dag_builder.py:166 | the sorted list is a permutation of the agent's events (equal multisets) and is ordered by timestamp |
| Events.SortByTimeStable | reconstruction/dag_builder.py:166 | stability: events with the same timestamp keep their log order |
| CausalDag.CausalDAG.constructor | reconstruction/dag_builder.py:26-28 | a new graph has no edges and no details, and the edge set equals the detail keys |
| CausalDag.CausalDAG.AddEdge | reconstruction/dag_builder.py:30-39 | the pair joins the edge set; its detail is overwritten (last write wins); the edge set stays equal to the detail keys; every other detail is unchanged; the stored reason reads back |
| CausalDag.CausalDAG.GetEdgeReason | reconstruction/dag_builder.py:41-45 | the stored reason for a pair that is an edge, `"unknown"` for any other pair |
| CausalDag.CausalDAG.ToDict | reconstruction/dag_builder.py:79-96 | `num_events` and `num_edges` are the counts; the list has one entry per edge with distinct pairs covering exactly the edge set; each entry is that edge's stored detail |
| CausalDag.CausalDAG.ListEdge | reconstruction/dag_builder.py:82-90 | one loop turn adds the entry of one more edge and keeps the list duplicate-free and faithful |
| Rules.Delegations | reconstruction/dag_builder.py:127 | exactly the `GOAL_DELEGATED` events of the log |
| Rules.EarliestAfter | reconstruction/dag_builder.py:136-142 | None exactly when the target agent has no strictly later event; otherwise such an event with the least timestamp, the first in log order among equal minima |
| Rules.DelegationEdge | reconstruction/dag_builder.py:129-149 | an edge exists exactly when the payload names a target that has a later event; it runs from the delegation to that earliest later event, with reason `delegation` and agents (delegator, target) |
| Rules.Links | reconstruction/dag_builder.py:168-170 | the visited pairs are exactly the adjacent pairs of the sorted list |
| DagBuilder.GroupByAgent | reconstruction/dag_builder.py:157-162 | the grouping loop yields the agents in first-appearance order, each mapped to its events in log order |
| DagBuilder.AddToGroup | reconstruction/dag_builder.py:158-162 | one event extends the grouping of the log prefix to the grouping of the longer prefix |
| DagBuilder.GroupStep | reconstruction/dag_builder.py:158-162 | how the agent order and the per-agent lists grow by one event: a new agent is appended, and only the event's own agent's list changes |
| DagBuilder.ApplyDelegationRule | reconstruction/dag_builder.py:122-149 | after the pass, the details are those the delegation rule describes for the details before it |
| DagBuilder.FoldLinksAppend | reconstruction/dag_builder.py:165-184 | visiting one agent's pairs after the earlier agents' pairs is the fold over the concatenation |
| DagBuilder.LinkAdjacent | reconstruction/dag_builder.py:157-184 | the walk over all agents' adjacent pairs leaves the fold of the rule's step over all visited pairs |
| DagBuilder.LinkAgent | reconstruction/dag_builder.py:166-184 | the walk over one agent's sorted list leaves the fold over that agent's pairs |
| DagBuilder.VisitPair | reconstruction/dag_builder.py:168-184 | one pair: skipped when it is already an edge; otherwise added with the rule's reason when the rule's condition holds |
| DagBuilder.ApplyIntraAgentRule | reconstruction/dag_builder.py:151-184 | after the pass, the details are those rule 2 describes |
| DagBuilder.ApplyGapCompletion | reconstruction/dag_builder.py:186-224 | after the pass, the details are those rule 3 describes: unchanged when the graph is connected, otherwise the proximity fold |
| DagBuilder.Build | reconstruction/dag_builder.py:102-120 | a fresh graph over the log whose details are rules 1, 2 and 3 applied in order from the empty graph, and whose edges are exactly the detail keys |
| Components.Dfs | reconstruction/dag_builder.py:232-243 | `dfs` visits its start and only nodes connected to it; nothing visited keeps an unvisited neighbour, except the nodes still being expanded higher up the call stack; the component grows by exactly the newly visited nodes |
| Components.FollowEdge | reconstruction/dag_builder.py:239-243 | one edge at the node sends the search to the node at the other end, whichever end the node is |
| Components.NextComponent | reconstruction/dag_builder.py:245-249 | a search from an unvisited event adds one more component, rooted at that event |
| Components.FindComponents | reconstruction/dag_builder.py:226-251 | the result is non-empty, pairwise disjoint sets that cover every event id; two ids share a component exactly when edges connect them, ignoring direction; there is at most one component exactly when all event ids are connected |
| Components.ComponentsMeaning | reconstruction/dag_builder.py:226-251 | what a completed search establishes: the partition into connected components, and the count gate |
| Components.ComponentCountGate | reconstruction/dag_builder.py:192-195 | at most one component exactly when every two event ids are connected |
| Properties.FoldLinksKeeps | reconstruction/dag_builder.py:172-174 | a pair that is already an edge keeps its detail through rules 2 and 3 |
| Properties.FoldLinksAdds | reconstruction/dag_builder.py:176-184 | every pair a sequencing rule adds is a visited adjacent pair meeting the rule's condition, and carries the rule's reason and the agent on both ends |
| Properties.FoldLinksComplete | reconstruction/dag_builder.py:168-184 | every visited pair meeting the rule's condition ends up as an edge |
| Properties.ApplyDelegationsJustified | reconstruction/dag_builder.py:127-149 | every detail rule 1 stores is the delegation edge of a `GOAL_DELEGATED` event of the log |
| Properties.FoldLinksJustified | reconstruction/dag_builder.py:166-184 | rules 2 and 3 store only qualifying adjacent-pair edges |
| Properties.BuildSpecJustified | reconstruction/dag_builder.py:102-120 | every detail `build` stores is explained by one of the three rules |
| Properties.AgentLinksFollow | reconstruction/dag_builder.py:165-170 | a visited pair is two consecutive entries of its agent's sorted list |
| Properties.LinkFacts | reconstruction/dag_builder.py:165-170 | a visited pair joins two events of the log of the same agent, the second no earlier than the first |
| Properties.JustifiedFacts | reconstruction/dag_builder.py:136-184 | an explained edge joins two events of the log and carries their agents; a delegation edge leaves a `GOAL_DELEGATED` event and runs strictly forward in time; the other edges never run backward |
| Properties.BuildEdgesForward | reconstruction/dag_builder.py:136-224 | every edge of the built graph is stored under its own endpoints and satisfies the facts above |
| Properties.BuildEdgesJoinEvents | reconstruction/dag_builder.py:136-224 | both ends of every built edge are ids of the log: no event is synthesized |
| Properties.BuildSpecReasons | reconstruction/dag_builder.py:141-224 | the reason of every edge names the rule that added it, and that rule's condition holds; no other reason occurs |
| Properties.DelegationEdgeKept | reconstruction/dag_builder.py:127-149 | with unique ids, every delegation that finds a target contributes exactly its edge to the final graph |
| Properties.BuildKeepsRule1 | reconstruction/dag_builder.py:172-174 | rules 2 and 3 never overwrite a detail stored by rule 1 |
| Properties.ReasoningStepsLinked | reconstruction/dag_builder.py:168-184 | every `REASONING_STEP` is linked to its successor in its agent's sorted list |
| Properties.ProximityLinked | reconstruction/dag_builder.py:192-224 | when rules 1 and 2 leave more than one component, every adjacent same-agent pair under 10 ms apart is an edge |
| Properties.EdgeRankLess | reconstruction/dag_builder.py:136-224 | with unique ids, every built edge goes up in the strict order (timestamp, then position in the agent's sorted list) |
| Properties.JustifiedRankLess | reconstruction/dag_builder.py:136-184 | each rule only links an event to one of strictly higher rank |
| Properties.PathRankLess | reconstruction/dag_builder.py:102-120 | along any path of such edges, rank goes up from end to end |
| Properties.BuildAcyclic | reconstruction/dag_builder.py:102-120 | with unique ids, the built graph has no directed cycle |
| Metrics.Completeness | evaluation/metrics.py:59 | `num_events / expected_event_count` when something is expected, else 1.0; within [0, 1] when no more events than expected were collected |
| Metrics.ComputeReconstructionMetrics | evaluation/metrics.py:21-70 | the counts are \|R−G\|, \|G−R\|, \|R\| and \|G\|; with empty ground truth, accuracy and precision are 1.0 for an empty reconstruction and 0.0 otherwise; otherwise accuracy·\|G\| = \|R∩G\| and precision·\|R\| = \|R∩G\|, with precision 0.0 for an empty reconstruction |
| Metrics.MetricsCounts | evaluation/metrics.py:52-58 | true positives plus false positives make the reconstruction; true positives plus false negatives make the ground truth |
| Metrics.MetricsBounds | evaluation/metrics.py:39-70 | accuracy and precision lie in [0, 1] |
| Metrics.MetricsPerfect | evaluation/metrics.py:39-70 | both scores are 1.0 exactly when the reconstruction equals the ground truth |
| Metrics.ShortId | evaluation/metrics.py:133 | `event_id[:8]`: a prefix of at most eight characters |
| Metrics.Chain | evaluation/metrics.py:127-137 | no more chain entries than path ids |
| Metrics.ChainSound | evaluation/metrics.py:128-137 | each chain entry describes an event of the log whose id is on the path |
| Metrics.ChainComplete | evaluation/metrics.py:128-137 | every event of the log whose id is on the path has an entry in the chain: the one describing the first event of the log that carries that id, under its short id |
| Metrics.PropagationCount | evaluation/metrics.py:113-125 | the path has one entry per id reachable forward from the failure |
| Metrics.FirstParent | evaluation/metrics.py:121-125 | the position of the first id on the path with an edge to the given id is at most the path's length (the length itself meaning there is none) |
| Metrics.FirstParentMeaning | evaluation/metrics.py:121-125 | the id at that position has an edge to the given id, and no id before it does |
| Metrics.FirstParentIs | evaluation/metrics.py:121-125 | conversely, a position whose id has an edge to the given id, with no such id before it, is the first predecessor |
| Metrics.FirstParentAppend | evaluation/metrics.py:123-125 | appending to the path leaves the first predecessor of every id that already had one unchanged |
| Metrics.LayeredAppend | evaluation/metrics.py:121-125 | an id queued while expanding `path[head]` has `path[head]` as its first predecessor (no earlier id has an edge to it, or it would already be visited), so the path stays in breadth-first layer order |
| Metrics.ChainReaches | evaluation/metrics.py:113-125 | on the edges a→b→c→d, exactly b, c and d are reachable forwards from b |
| Metrics.ChainPropagationUnique | evaluation/metrics.py:113-125 | on the edges a→b→c→d with the failure at b, every propagation order is `[b, c, d]`: with no siblings, the breadth-first order is forced |
| Metrics.ChainPropagationOrder | evaluation/metrics.py:113-125 | on the edges a→b→c→d with the failure at b, `[b, c, d]` is a propagation order and `[b, d, c]` is not |
| Metrics.Expand | evaluation/metrics.py:118-125 | expanding the head of the queue visits, queues and appends every unvisited successor; the search state advances by one expanded node, and every id appended has the expanded id as its first predecessor |
| Metrics.VisitEdge | evaluation/metrics.py:121-125 | one edge out of the current node to an unvisited id visits it and appends it to the queue and the path |
| Metrics.VisitNew | evaluation/metrics.py:121-125 | visiting a new successor of the expanded id keeps the search state, the breadth-first layering and the queue as the path's unexpanded tail, with that edge done |
| Metrics.BfsDone | evaluation/metrics.py:117-125 | when the queue is empty, the path starts at the failure, has no repeats, holds exactly the ids reachable forward from it, and is in breadth-first discovery order |
| Metrics.Propagate | evaluation/metrics.py:113-125 | the path is a propagation order of the failure id: it starts at the failure, has no repeats, and holds exactly the reachable ids; every later id has an edge from an earlier one; the ids come in non-decreasing order of their first predecessor's position, which is breadth-first order up to the order of siblings |
| Metrics.Dequeue | evaluation/metrics.py:117-125 | one turn of `while queue` keeps the search state and the layer order, and either visits more ids or shrinks the queue |
| Metrics.CheckFailurePropagation | evaluation/metrics.py:86-143 | "not found" exactly when no event carries the failure id; otherwise the number of affected events is the number of reachable ids, the chain is the chain of a path in breadth-first discovery order (as `Metrics.Propagate` states), and the agents are exactly the chain entries' agents |
| Metrics.NewScenario | evaluation/metrics.py:149-153 | the scenario keeps its name, description and ground truth, and expects one more event than it has ground-truth edges |
| Metrics.Scenarios | evaluation/metrics.py:157-203 | exactly the three scenarios `simple_delegation`, `cascading_delegation` and `parallel_tasks`, each under its own name, each with the empty ground truth `{}` and so one expected event |
| Metrics.ValidateScenario | evaluation/metrics.py:206-213 | the reconstruction scored against the scenario: the counts are \|R\|, \|G\|, \|R−G\| and \|G−R\| for the scenario's ground truth G, completeness uses the scenario's expected count, and accuracy and precision lie in [0, 1]; the whole result is the reconstruction metrics of the scenario's ground truth and expected count |
| Metrics.PredefinedScenariosValidate | evaluation/metrics.py:157-213 | every predefined scenario has an empty ground truth and expects one event, so validating against it scores 1.0 only for an empty reconstruction, counts every edge as a false positive, and reports completeness equal to the number of events |
| Ablation.StrLessTotal | examples/06_ablation_study.py:66 | Python's string order is total on distinct strings |
| Ablation.SortStrsSorted | examples/06_ablation_study.py:66 | `sorted` of distinct strings is strictly increasing |
| Ablation.TypesOf | examples/06_ablation_study.py:50 | the event types present in the log, each once |
| Ablation.SortedTypesSpec | examples/06_ablation_study.py:66 | the loop visits exactly the present types, each once, in increasing order |
| Ablation.WithoutTypeMembers | examples/06_ablation_study.py:67 | the filtered log holds exactly the events of other types |
| Ablation.WithoutTypeAppend | examples/06_ablation_study.py:67 | filtering distributes over concatenation, so the kept events keep their relative order |
| Ablation.WithoutTypeShorter | examples/06_ablation_study.py:66-70 | dropping a type that occurs makes the log strictly shorter |
| Ablation.RecoveredAccuracy | examples/06_ablation_study.py:77-78 | the recovered fraction lies in [0, 1] and is 1.0 exactly when every baseline edge is recovered |
| Ablation.AblatedRowFacts | examples/06_ablation_study.py:66-86 | dropping a present type gives at most one row; the row names the type, keeps some but not all events, and scores within [0, 1] |
| Ablation.AblatedRowsFacts | examples/06_ablation_study.py:66-86 | at most one row per type, and every row satisfies the facts above |
| Ablation.Ablate | examples/06_ablation_study.py:57-86 | the baseline row (all events, baseline edge count, accuracy 1.0), then the ablated rows in the sorted order of the present types |
| Ablation.AblateTypes | examples/06_ablation_study.py:66-86 | the loop appends the ablated rows of the given types in order |
| Ablation.AblateNext | examples/06_ablation_study.py:66-86 | one loop turn appends the row of one more type |
| Ablation.AblateType | examples/06_ablation_study.py:67-86 | one type: skipped when nothing remains; otherwise rebuilt and scored against the baseline edges |
| Ablation.AblateFacts | examples/06_ablation_study.py:66-86 | every non-baseline row satisfies the row facts |
| Ablation.Classify | examples/06_ablation_study.py:113-126 | the essential and optional lists select the rows below and at-or-above 0.8; together they hold one entry per non-baseline row |
| Ablation.ClassifySplits | examples/06_ablation_study.py:116-126 | each row lands in the list its accuracy selects; against the 1.0 baseline an essential type drops accuracy by more than 0.2, and an optional one keeps at least 0.8 |
| Ablation.RunAblationStudy | examples/06_ablation_study.py:57-126 | the baseline row first, with the full log's event count, its built edge count and accuracy 1.0; then exactly one rebuilt-and-scored row per present type in sorted order (those leaving events), each satisfying the row facts; the split is the classification of those rows, with every drop above 0.2 |
| ToolCall.IndexFromSpec | src/agents_realistic/base.py:62-63 | the search finds the first occurrence of the pattern, and finding none means there is none |
| ToolCall.ContainsIff | src/agents_realistic/base.py:62 | `pat in s` exactly when the pattern occurs somewhere |
| ToolCall.SecondPieceSpec | src/agents_realistic/base.py:63 | `split(sep)[1]` starts right after the first separator and runs to the next separator or to the end |
| ToolCall.SecondPieceNoSep | src/agents_realistic/base.py:63 | the piece holds no separator |
| ToolCall.TrimLeftSpec | src/agents_realistic/base.py:66 | the regex's `\s*` drops exactly the leading whitespace and leaves a suffix that does not start with whitespace |
| ToolCall.TrimRightSpec | src/agents_realistic/base.py:63 | dropping trailing whitespace leaves a prefix that does not end with whitespace |
| ToolCall.StripSpec | src/agents_realistic/base.py:63 | `strip()` keeps one contiguous run with non-whitespace ends and drops only whitespace around it |
| ToolCall.StripIdempotent | src/agents_realistic/base.py:69 | stripping twice is stripping once |
| ToolCall.StripAfterTrimLeft | src/agents_realistic/base.py:66-69 | stripping the text after `\s*` is stripping the raw rest of the line |
| ToolCall.SplitLines | src/agents_realistic/base.py:57 | `split('\n')` gives at least one line and no line holds a newline |
| ToolCall.JoinSplit | src/agents_realistic/base.py:57 | joining the split lines with newlines gives the reply back |
| ToolCall.SplitJoin | src/agents_realistic/base.py:57 | splitting the join of newline-free lines gives the lines back |
| ToolCall.WordRun | src/agents_realistic/base.py:66 | `\w+` takes the maximal run of word characters |
| ToolCall.MatchParamComplete | src/agents_realistic/base.py:66-69 | every line of the form `PARAM_<word>:<rest>` matches, with that key and the stripped rest as value |
| ToolCall.MatchParamSound | src/agents_realistic/base.py:66-69 | a line that matches has that form, and the value is the stripped rest |
| ToolCall.LineEffectOf | src/agents_realistic/base.py:62-69 | a line sets the tool name exactly when it contains `TOOL_NAME:` |
| ToolCall.LineEffectParam | src/agents_realistic/base.py:62-69 | a line sets a parameter exactly when it has no `TOOL_NAME:` and begins `PARAM_<word>:`; the parameter is the match |
| ToolCall.EffectsOf | src/agents_realistic/base.py:61 | one effect per line, in order |
| ToolCall.ParseToolCall | src/agents_realistic/base.py:52-71 | the loop's result is the effects of the reply's lines applied in order, starting from `(None, {})` |
| ToolCall.ParseLine | src/agents_realistic/base.py:62-69 | the loop body applies the line's effect to the current name and parameters |
| ToolCall.NoToolLine | src/agents_realistic/base.py:58-63 | when no line contains `TOOL_NAME:`, the tool name stays None |
| ToolCall.LastToolLineWins | src/agents_realistic/base.py:61-63 | the last line containing `TOOL_NAME:` decides the tool name: its text after the first marker, up to any second one, stripped |
| ToolCall.EffectKeys | src/agents_realistic/base.py:64-69 | a key is present exactly when some effect sets it |
| ToolCall.LastEffectWins | src/agents_realistic/base.py:69 | a repeated key keeps the value of the last effect that sets it |
| ToolCall.ParamKeys | src/agents_realistic/base.py:62-69 | a key is present exactly when some line without `TOOL_NAME:` begins `PARAM_<key>:` |
| ToolCall.LastParamWins | src/agents_realistic/base.py:69 | a repeated key keeps the stripped value from the last line that sets it |
| ToolCall.EmptyParse | src/agents_realistic/base.py:57-71 | the result is `(None, {})` exactly when no line contains `TOOL_NAME:` and no line matches the `PARAM_` pattern |

## Left out

- Printing and rendering are not modelled: `print_edges`, `visualize_trace`, `print_metrics`, the printing in `validate_scenario`, and the ablation driver's table, interpretation text and JSON export.
- The event producer is not modelled: `TraceCollector`, ids from `uuid4`, wall-clock timestamps and the LangGraph workflows. The ablation study takes its event log as a parameter.
- The LLM calls, tool invocation and event emission around `_parse_tool_call` are not modelled.
- The ablation rows' `config` label string is not modelled.
- The ablation driver's `ground_truth_edges` is an unused empty literal and is not modelled.
- An event's payload is reduced to its `to` field. A delegation without `to` adds no edge; in the source such a target matches no agent id.
- Timestamps, the 0.01 s threshold and all metric ratios are exact reals. IEEE rounding is not modelled.
- Python's set iteration order is not modelled.
  - `_find_components` and the edge loop of `check_failure_propagation` take the edges in an arbitrary order (`:|`).
  - The properties are stated for every order.
  - In `to_dict`, the entries appear in an unspecified order.
- Each stored edge detail is keyed by its own endpoints. `to_dict`'s `"unknown"` / `"?"` fallback for a pair without a detail therefore never applies, and the model only keeps it as a dead branch.
- Properties.BuildAcyclic: requires unique event ids, which the producer guarantees. With duplicate ids two events share one node, and a cycle is possible.
- Properties.EdgeRankLess: requires unique event ids, because the rank of an id is read from the one event that carries it.
- Properties.DelegationEdgeKept: requires unique event ids. With duplicates, a later delegation that has the same id can overwrite the edge.
- Metrics.CheckFailurePropagation: the chain is stated for every breadth-first discovery order: ids in non-decreasing order of the position of their first predecessor on the path. It is not stated for the one order of siblings that Python's set iteration would fix, because the code leaves sibling order undetermined.
- Components.FindComponents: the order of the components (the log order of the event each search starts from) is not stated. Only their number is used, by `_apply_gap_completion`.
- Components.Dfs: Python's recursion limit is not modelled. The source's `dfs` is recursive, with the default limit of about 1000 frames. A connected run of about that many events, such as a long chain of `REASONING_STEP` events of one agent, makes `_find_components` raise `RecursionError`. The model's search always returns.
- DagBuilder.Build: always returns a graph. The `RecursionError` that `_find_components` raises on a long connected chain, and that ends `build` and the ablation study in the source, is not modelled.
- `\w` in the `PARAM_` pattern is restricted to ASCII letters, digits and `_`. Python's Unicode word class is not modelled.
- `\s` and `strip()` follow Python's `str.isspace` over code points, with no Unicode normalisation.
