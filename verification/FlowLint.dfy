// The submit-time lint of a flow: a pass over the nodes, a pass over the edges, a pass over the
// verify nodes' coverage, and a search for cycles that nothing bounds.
module FlowLint {
  import opened Ordering
  import opened Digraph
  import opened Text
  import opened FlowModel
  import Waves

  const KNOWN_USES := {"mission", "workspace", "verify", "review", "apply"}
  const VERDICTS := {"pass", "fail", "timeout", "blocked", "not_run"}
  const POLICIES := {"pass", "require_approval", "blocked", "escalate"}
  const LANES := {"cheap", "medium", "planner", "premium"}
  const CLI_KEYS := {"cli", "binary", "command", "executable"}

  datatype Condition = Default | Verdict(value: string) | Policy(value: string) | Invalid

  function ParseCondition(raw: string): Condition {
    if TrimSpace(raw) == "default" then Default
    else
      var parts := Fields(raw);
      if |parts| != 3 || parts[1] != "==" then Invalid
      else if parts[0] == "verdict" then (if parts[2] in VERDICTS then Verdict(parts[2]) else Invalid)
      else if parts[0] == "policy" then (if parts[2] in POLICIES then Policy(parts[2]) else Invalid)
      else Invalid
  }

  datatype Rule =
    | EmptyFlow | EmptyNodeId | DuplicateNodeId | UnknownCapability | NamedCLI | UnknownLane | InvalidMaxVisits
    | DanglingEdge | InvalidCondition | VerdictSourceNotVerify | NotRunApply | DefaultApply
    | OrphanNode | IncompleteVerdictEdges | UnboundedCycle

  // Every finding of the lint blocks. The node id is empty where none is given.
  datatype Finding = Finding(rule: Rule, nodeId: string)

  // ---- the lint's view of the flow: trimmed ids, first occurrence kept ----

  function LintTable(nodes: seq<Node>): map<string, Node> {
    if nodes == [] then map[]
    else
      var rest := LintTable(nodes[..|nodes| - 1]);
      var last := nodes[|nodes| - 1];
      var id := TrimSpace(last.id);
      if id == "" || id in rest then rest else rest[id := last.(id := id)]
  }

  function Ends(edge: Edge): (string, string) {
    (TrimSpace(edge.src), TrimSpace(edge.dst))
  }

  predicate Known(table: map<string, Node>, edge: Edge) {
    Ends(edge).0 in table && Ends(edge).1 in table
  }

  ghost function LintEdges(table: map<string, Node>, edges: seq<Edge>): set<(string, string)> {
    set e | e in edges && Known(table, e) :: Ends(e)
  }

  // ---- what each rule means ----

  ghost predicate NodeRule(nodes: seq<Node>, f: Finding) {
    match f.rule
    case EmptyNodeId => f.nodeId == "" && exists k :: 0 <= k < |nodes| && TrimSpace(nodes[k].id) == ""
    case DuplicateNodeId => f.nodeId != "" && exists j, k :: (
        0 <= j < k < |nodes| && TrimSpace(nodes[j].id) == f.nodeId && TrimSpace(nodes[k].id) == f.nodeId)
    case _ =>
      f.nodeId in LintTable(nodes) && KeptNodeRule(LintTable(nodes)[f.nodeId], f.rule)
  }

  predicate KeptNodeRule(node: Node, rule: Rule) {
    match rule
    case UnknownCapability => node.uses !in KNOWN_USES
    case NamedCLI => node.withKeys * CLI_KEYS != {}
    case UnknownLane => node.lane != "" && node.lane !in LANES
    case InvalidMaxVisits => node.maxVisits < 0
    case _ => false
  }

  predicate EdgeRule(table: map<string, Node>, edge: Edge, f: Finding) {
    var (src, dst) := Ends(edge);
    var condition := ParseCondition(edge.when);
    match f.rule
    case DanglingEdge => f.nodeId == "" && !Known(table, edge)
    case InvalidCondition => f.nodeId == "" && Known(table, edge) && condition.Invalid?
    case VerdictSourceNotVerify =>
      f.nodeId == src && Known(table, edge) && condition.Verdict? && table[src].uses != "verify"
    case NotRunApply =>
      f.nodeId == dst && Known(table, edge) && condition == Verdict("not_run") && table[dst].uses == "apply"
    case DefaultApply =>
      f.nodeId == dst && Known(table, edge) && condition.Default?
      && table[src].uses == "verify" && table[dst].uses == "apply"
    case _ => false
  }

  // Edge e contributes condition c to the ones leaving id.
  predicate Leaves(table: map<string, Node>, e: Edge, id: string, c: Condition) {
    Known(table, e) && Ends(e).0 == id && ParseCondition(e.when) == c && !c.Invalid?
  }

  ghost predicate Touches(table: map<string, Node>, edges: seq<Edge>, id: string) {
    exists e :: e in edges && Known(table, e) && (Ends(e).0 == id || Ends(e).1 == id)
  }

  ghost predicate HasOutgoing(table: map<string, Node>, edges: seq<Edge>, id: string, c: Condition) {
    exists e :: e in edges && Leaves(table, e, id, c)
  }

  ghost predicate CoverageRule(table: map<string, Node>, edges: seq<Edge>, f: Finding) {
    match f.rule
    case OrphanNode => f.nodeId in table && edges != [] && |table| > 1 && !Touches(table, edges, f.nodeId)
    case IncompleteVerdictEdges =>
      && f.nodeId in table && table[f.nodeId].uses == "verify"
      && (exists c :: HasOutgoing(table, edges, f.nodeId, c))
      && !HasOutgoing(table, edges, f.nodeId, Default)
      && exists v :: v in VERDICTS && !HasOutgoing(table, edges, f.nodeId, Verdict(v))
    case _ => false
  }

  // There are nodes on or behind a cycle and none of them has a visit limit.
  ghost predicate CycleRule(table: map<string, Node>, edges: set<(string, string)>, f: Finding) {
    && f == Finding(UnboundedCycle, "")
    && Residual(table.Keys, edges) != {}
    && forall id :: id in Residual(table.Keys, edges) ==> id in table && table[id].maxVisits <= 0
  }

  ghost predicate Finds(flow: Flow, f: Finding) {
    var table := LintTable(flow.nodes);
    if flow.nodes == [] then f == Finding(EmptyFlow, "")
    else
      || NodeRule(flow.nodes, f)
      || (exists e :: e in flow.edges && EdgeRule(table, e, f))
      || CoverageRule(table, flow.edges, f)
      || CycleRule(table, LintEdges(table, flow.edges), f)
  }

  ghost predicate Blocked(flow: Flow) {
    exists f :: Finds(flow, f)
  }

  // ---- the passes ----

  lemma {:induction false} LintTableIds(nodes: seq<Node>)
    ensures forall id :: id in LintTable(nodes) <==>
      id != "" && exists k :: 0 <= k < |nodes| && TrimSpace(nodes[k].id) == id
  {
    hide TrimSpace;
    if nodes != [] {
      var init, last := nodes[..|nodes| - 1], nodes[|nodes| - 1];
      LintTableIds(init);
      forall id ensures id in LintTable(nodes) <==>
          id != "" && exists k :: 0 <= k < |nodes| && TrimSpace(nodes[k].id) == id {
        if id in LintTable(nodes) {
          if id in LintTable(init) {
            var k :| 0 <= k < |init| && TrimSpace(init[k].id) == id;
            assert nodes[k] == init[k];
          } else {
            assert TrimSpace(nodes[|nodes| - 1].id) == id;
          }
        }
        if k :| id != "" && 0 <= k < |nodes| && TrimSpace(nodes[k].id) == id {
          if k < |init| {
            assert init[k] == nodes[k];
          }
        }
      }
    }
  }

  // What the pass reports when it reaches the next node.
  function NodeFindings(before: map<string, Node>, node: Node): set<Finding> {
    var id := TrimSpace(node.id);
    if id == "" then {Finding(EmptyNodeId, "")}
    else if id in before then {Finding(DuplicateNodeId, id)}
    else set rule | rule in {UnknownCapability, NamedCLI, UnknownLane, InvalidMaxVisits} && KeptNodeRule(node, rule)
           :: Finding(rule, id)
  }

  lemma NodeRuleStep(nodes: seq<Node>, k: nat, f: Finding)
    requires k < |nodes|
    ensures NodeRule(nodes[..k + 1], f) <==>
      NodeRule(nodes[..k], f) || f in NodeFindings(LintTable(nodes[..k]), nodes[k])
  {
    hide TrimSpace, NodeRule, NodeFindings, LintTable;
    var now, before := nodes[..k + 1], nodes[..k];
    assert now[..|now| - 1] == before && now[|now| - 1] == nodes[k];
    assert forall j :: 0 <= j < k ==> now[j] == before[j];
    LastNodeRule(now, f);
  }

  // One more node adds what the pass reports when it reaches it.
  lemma LastNodeRule(nodes: seq<Node>, f: Finding)
    requires nodes != []
    ensures
      var init, last := nodes[..|nodes| - 1], nodes[|nodes| - 1];
      NodeRule(nodes, f) <==> NodeRule(init, f) || f in NodeFindings(LintTable(init), last)
  {
    hide TrimSpace;
    var init, last := nodes[..|nodes| - 1], nodes[|nodes| - 1];
    var id := TrimSpace(last.id);
    assert nodes == init + [last];
    match f.rule {
      case EmptyNodeId =>
        assert NodeRule(nodes, f) <==> NodeRule(init, f) || (f.nodeId == "" && id == "");
      case DuplicateNodeId =>
        LintTableIds(init);
        DuplicateNext(nodes, f);
      case _ =>
        OnlyKeptRules(last, id, f.rule);
    }
  }

  lemma DuplicateNext(nodes: seq<Node>, f: Finding)
    requires nodes != [] && f.rule == DuplicateNodeId
    ensures
      var init, last := nodes[..|nodes| - 1], nodes[|nodes| - 1];
      NodeRule(nodes, f) <==>
        NodeRule(init, f)
        || (f.nodeId != "" && TrimSpace(last.id) == f.nodeId
            && exists j :: 0 <= j < |init| && TrimSpace(init[j].id) == f.nodeId)
  {
    hide TrimSpace, LintTable;
    var init, last := nodes[..|nodes| - 1], nodes[|nodes| - 1];
    assert forall j :: 0 <= j < |init| ==> nodes[j] == init[j];
    if j :| f.nodeId != "" && TrimSpace(last.id) == f.nodeId && 0 <= j < |init| && TrimSpace(init[j].id) == f.nodeId {
      assert TrimSpace(nodes[j].id) == f.nodeId && TrimSpace(nodes[|init|].id) == f.nodeId;
    }
    if j, m :| (
        f.nodeId != "" && 0 <= j < m < |nodes|
        && TrimSpace(nodes[j].id) == f.nodeId && TrimSpace(nodes[m].id) == f.nodeId) {
      assert TrimSpace(init[j].id) == f.nodeId;
    }
  }

  lemma OnlyKeptRules(node: Node, id: string, rule: Rule)
    ensures KeptNodeRule(node, rule) ==> rule in {UnknownCapability, NamedCLI, UnknownLane, InvalidMaxVisits}
    ensures KeptNodeRule(node, rule) <==> KeptNodeRule(node.(id := id), rule)
  {
  }

  method LintNodes(nodes: seq<Node>) returns (table: map<string, Node>, findings: set<Finding>)
    ensures table == LintTable(nodes)
    ensures forall f :: f in findings <==> NodeRule(nodes, f)
  {
    hide TrimSpace, NodeRule;
    table, findings := map[], {};
    NoNodesNoFindings();
    assert nodes[..0] == [];
    for k := 0 to |nodes|
      invariant table == LintTable(nodes[..k])
      invariant forall f :: f in findings <==> NodeRule(nodes[..k], f)
    {
      var node := nodes[k];
      var id := TrimSpace(node.id);
      assert nodes[..k + 1][..k] == nodes[..k];
      forall f ensures NodeRule(nodes[..k + 1], f) <==> NodeRule(nodes[..k], f) || f in NodeFindings(table, node) {
        NodeRuleStep(nodes, k, f);
      }
      findings := findings + NodeFindings(table, node);
      if id != "" && id !in table {
        table := table[id := node.(id := id)];
      }
    }
    assert nodes[..|nodes|] == nodes;
  }

  lemma NoNodesNoFindings()
    ensures forall f :: !NodeRule([], f)
  {
  }

  // What the edge pass gathers: adjacency and counters over the distinct known edges, how often a
  // node is an end of one, and the conditions leaving each node.
  ghost predicate LinksAgree(
    nodes: set<string>, known: set<(string, string)>, adj: map<string, seq<string>>, indegree: map<string, int>)
  {
    && adj.Keys == nodes && indegree.Keys == nodes
    && EdgesWithin(nodes, known)
    && (forall n :: n in nodes ==> Distinct(adj[n]))
    && (forall n, m :: n in nodes ==> (m in adj[n] <==> (n, m) in known))
    && (forall n :: n in nodes ==> indegree[n] == |Waiting(nodes, known, {}, n)|)
  }

  // The node is an end of one of the edges.
  ghost predicate Meets(known: set<(string, string)>, id: string) {
    exists e :: e in known && (e.0 == id || e.1 == id)
  }

  ghost predicate DegreesAgree(nodes: set<string>, known: set<(string, string)>, degree: map<string, int>) {
    degree.Keys == nodes
    && forall n :: n in nodes ==> degree[n] >= 0 && (degree[n] > 0 <==> Meets(known, n))
  }

  ghost predicate ConditionsAgree(table: map<string, Node>, edges: seq<Edge>, outgoing: map<string, seq<Condition>>) {
    outgoing.Keys == table.Keys
    && forall n, c :: n in table ==> (c in outgoing[n] <==> HasOutgoing(table, edges, n, c))
  }

  lemma LintEdgesStep(table: map<string, Node>, edges: seq<Edge>, k: nat)
    requires k < |edges|
    ensures Known(table, edges[k]) ==>
      LintEdges(table, edges[..k + 1]) == LintEdges(table, edges[..k]) + {Ends(edges[k])}
    ensures !Known(table, edges[k]) ==> LintEdges(table, edges[..k + 1]) == LintEdges(table, edges[..k])
  {
    hide Ends, Known;
    var now, before := LintEdges(table, edges[..k + 1]), LintEdges(table, edges[..k]);
    assert edges[..k + 1] == edges[..k] + [edges[k]];
    forall p | p in now ensures p in before || (Known(table, edges[k]) && p == Ends(edges[k])) {
      var e :| e in edges[..k + 1] && Known(table, e) && p == Ends(e);
      assert e == edges[k] || e in edges[..k];
    }
    forall p | p in before || (Known(table, edges[k]) && p == Ends(edges[k])) ensures p in now {
      if p in before {
        var e :| e in edges[..k] && Known(table, e) && p == Ends(e);
        assert e in edges[..k + 1];
      } else {
        assert edges[k] in edges[..k + 1];
      }
    }
  }

  lemma TouchesMeets(table: map<string, Node>, edges: seq<Edge>, id: string)
    ensures Touches(table, edges, id) <==> Meets(LintEdges(table, edges), id)
  {
    hide Ends, Known;
    if e :| e in edges && Known(table, e) && (Ends(e).0 == id || Ends(e).1 == id) {
      assert Ends(e) in LintEdges(table, edges);
    }
    if p :| p in LintEdges(table, edges) && (p.0 == id || p.1 == id) {
      var e :| e in edges && Known(table, e) && p == Ends(e);
    }
  }

  lemma OutgoingStep(table: map<string, Node>, edges: seq<Edge>, k: nat, id: string, c: Condition)
    requires k < |edges|
    ensures HasOutgoing(table, edges[..k + 1], id, c) <==>
      HasOutgoing(table, edges[..k], id, c) || Leaves(table, edges[k], id, c)
  {
    hide Leaves;
    assert edges[..k + 1] == edges[..k] + [edges[k]];
    assert edges[k] in edges[..k + 1];
    assert forall e :: e in edges[..k] ==> e in edges[..k + 1];
  }

  lemma WaitingGrows(nodes: set<string>, edges: set<(string, string)>, src: string, dst: string, n: string)
    requires src in nodes && (src, dst) !in edges
    ensures |Waiting(nodes, edges + {(src, dst)}, {}, n)|
      == |Waiting(nodes, edges, {}, n)| + (if n == dst then 1 else 0)
  {
    var before, after := Waiting(nodes, edges, {}, n), Waiting(nodes, edges + {(src, dst)}, {}, n);
    if n == dst {
      assert after == before + {src};
      assert src !in before;
    } else {
      assert after == before;
    }
  }

  method LinkEdge(
    nodes: set<string>, ghost known: set<(string, string)>, src: string, dst: string,
    adj0: map<string, seq<string>>, indegree0: map<string, int>)
    returns (fresh': bool, adj: map<string, seq<string>>, indegree: map<string, int>)
    requires LinksAgree(nodes, known, adj0, indegree0) && src in nodes && dst in nodes
    ensures fresh' <==> (src, dst) !in known
    ensures LinksAgree(nodes, known + {(src, dst)}, adj, indegree)
  {
    adj, indegree := adj0, indegree0;
    fresh' := dst !in adj[src];
    if !fresh' {
      assert known + {(src, dst)} == known;
      return;
    }
    LinksGrow(nodes, known, src, dst, adj, indegree);
    adj := adj[src := adj[src] + [dst]];
    indegree := indegree[dst := indegree[dst] + 1];
  }

  lemma LinksGrow(
    nodes: set<string>, known: set<(string, string)>, src: string, dst: string,
    adj: map<string, seq<string>>, indegree: map<string, int>)
    requires LinksAgree(nodes, known, adj, indegree) && src in nodes && dst in nodes && (src, dst) !in known
    ensures LinksAgree(nodes, known + {(src, dst)}, adj[src := adj[src] + [dst]], indegree[dst := indegree[dst] + 1])
  {
    hide Waiting;
    CountsGrow(nodes, known, src, dst, indegree);
    var longer := adj[src] + [dst];
    assert dst !in adj[src];
    assert Distinct(longer);
    assert forall m :: m in longer <==> m in adj[src] || m == dst;
    ListsGrow(nodes, known, src, dst, adj);
  }

  lemma ListsGrow(
    nodes: set<string>, known: set<(string, string)>, src: string, dst: string, adj: map<string, seq<string>>)
    requires adj.Keys == nodes && src in nodes
    requires forall n, m :: n in nodes ==> (m in adj[n] <==> (n, m) in known)
    ensures forall n, m :: n in nodes ==>
      (m in adj[src := adj[src] + [dst]][n] <==> (n, m) in known + {(src, dst)})
  {
  }

  lemma CountsGrow(
    nodes: set<string>, known: set<(string, string)>, src: string, dst: string, indegree: map<string, int>)
    requires indegree.Keys == nodes && src in nodes && dst in nodes && (src, dst) !in known
    requires forall n :: n in nodes ==> indegree[n] == |Waiting(nodes, known, {}, n)|
    ensures forall n :: n in nodes ==>
      indegree[dst := indegree[dst] + 1][n] == |Waiting(nodes, known + {(src, dst)}, {}, n)|
  {
    forall n | n in nodes
      ensures indegree[dst := indegree[dst] + 1][n] == |Waiting(nodes, known + {(src, dst)}, {}, n)| {
      WaitingGrows(nodes, known, src, dst, n);
    }
  }

  lemma DegreesStep(
    nodes: set<string>, known: set<(string, string)>, src: string, dst: string, degree: map<string, int>,
    next: map<string, int>)
    requires DegreesAgree(nodes, known, degree) && next.Keys == nodes && src in nodes && dst in nodes
    requires forall n :: n in nodes ==> next[n] >= degree[n]
    requires forall n :: n in nodes && n != src && n != dst ==> next[n] == degree[n]
    requires next[src] > 0 && next[dst] > 0
    ensures DegreesAgree(nodes, known + {(src, dst)}, next)
  {
    var more := known + {(src, dst)};
    assert (src, dst) in more;
    forall n | n in nodes ensures next[n] > 0 <==> Meets(more, n) {
      if e :| e in known && (e.0 == n || e.1 == n) {
        assert e in more;
      }
    }
  }

  lemma ConditionsStep(
    table: map<string, Node>, edges: seq<Edge>, k: nat, outgoing: map<string, seq<Condition>>,
    next: map<string, seq<Condition>>)
    requires k < |edges| && ConditionsAgree(table, edges[..k], outgoing) && next.Keys == table.Keys
    requires forall n, c :: n in table ==> (c in next[n] <==> c in outgoing[n] || Leaves(table, edges[k], n, c))
    ensures ConditionsAgree(table, edges[..k + 1], next)
  {
    hide Leaves, HasOutgoing;
    forall n, c | n in table ensures c in next[n] <==> HasOutgoing(table, edges[..k + 1], n, c) {
      OutgoingStep(table, edges, k, n, c);
      assert c in outgoing[n] <==> HasOutgoing(table, edges[..k], n, c);
    }
  }

  method LinkKnown(
    table: map<string, Node>, ghost edges: seq<Edge>, ghost k: nat, edge: Edge,
    adj0: map<string, seq<string>>, indegree0: map<string, int>, degree0: map<string, int>)
    returns (adj: map<string, seq<string>>, indegree: map<string, int>, degree: map<string, int>)
    requires k < |edges| && edge == edges[k] && Known(table, edge)
    requires LinksAgree(table.Keys, LintEdges(table, edges[..k]), adj0, indegree0)
    requires DegreesAgree(table.Keys, LintEdges(table, edges[..k]), degree0)
    ensures LinksAgree(table.Keys, LintEdges(table, edges[..k + 1]), adj, indegree)
    ensures DegreesAgree(table.Keys, LintEdges(table, edges[..k + 1]), degree)
  {
    hide TrimSpace, LintEdges, LinksAgree;
    var (src, dst) := Ends(edge);
    ghost var known := LintEdges(table, edges[..k]);
    LintEdgesStep(table, edges, k);
    var fresh';
    fresh', adj, indegree := LinkEdge(table.Keys, known, src, dst, adj0, indegree0);
    degree := degree0;
    if fresh' {
      degree := degree[src := degree[src] + 1];
      degree := degree[dst := degree[dst] + 1];
    } else {
      assert Meets(known, src) && Meets(known, dst);
    }
    DegreesStep(table.Keys, known, src, dst, degree0, degree);
  }

  method NoteCondition(
    table: map<string, Node>, ghost edges: seq<Edge>, ghost k: nat, edge: Edge, outgoing0: map<string, seq<Condition>>)
    returns (outgoing: map<string, seq<Condition>>)
    requires k < |edges| && edge == edges[k] && ConditionsAgree(table, edges[..k], outgoing0)
    ensures ConditionsAgree(table, edges[..k + 1], outgoing)
  {
    hide TrimSpace, ParseCondition, HasOutgoing;
    outgoing := outgoing0;
    var condition := ParseCondition(edge.when);
    if Known(table, edge) && !condition.Invalid? {
      var src := Ends(edge).0;
      outgoing := outgoing[src := outgoing[src] + [condition]];
    }
    ConditionsStep(table, edges, k, outgoing0, outgoing);
  }

  function EdgeFindings(table: map<string, Node>, edge: Edge): set<Finding> {
    var (src, dst) := Ends(edge);
    set f | f in {Finding(DanglingEdge, ""), Finding(InvalidCondition, ""), Finding(VerdictSourceNotVerify, src),
                  Finding(NotRunApply, dst), Finding(DefaultApply, dst)} && EdgeRule(table, edge, f)
  }

  lemma EdgeFindingsAreAll(table: map<string, Node>, edge: Edge, f: Finding)
    ensures f in EdgeFindings(table, edge) <==> EdgeRule(table, edge, f)
  {
    hide TrimSpace, ParseCondition;
  }

  method LintEdgePass(table: map<string, Node>, edges: seq<Edge>)
    returns (adj: map<string, seq<string>>, indegree: map<string, int>, degree: map<string, int>,
             outgoing: map<string, seq<Condition>>, findings: set<Finding>)
    ensures LinksAgree(table.Keys, LintEdges(table, edges), adj, indegree)
    ensures DegreesAgree(table.Keys, LintEdges(table, edges), degree) && ConditionsAgree(table, edges, outgoing)
    ensures forall f :: f in findings <==> exists e :: e in edges && EdgeRule(table, e, f)
  {
    hide Ends, Known, LinksAgree, DegreesAgree, ConditionsAgree, LintEdges, EdgeRule, EdgeFindings;
    adj, indegree, degree, outgoing := EmptyPass(table, edges);
    findings := {};
    for k := 0 to |edges|
      invariant LinksAgree(table.Keys, LintEdges(table, edges[..k]), adj, indegree)
      invariant DegreesAgree(table.Keys, LintEdges(table, edges[..k]), degree) && ConditionsAgree(table, edges[..k], outgoing)
      invariant forall f :: f in findings <==> exists e :: e in edges[..k] && EdgeRule(table, e, f)
    {
      var edge := edges[k];
      outgoing := NoteCondition(table, edges, k, edge, outgoing);
      if Known(table, edge) {
        adj, indegree, degree := LinkKnown(table, edges, k, edge, adj, indegree, degree);
      } else {
        LintEdgesStep(table, edges, k);
      }
      forall f ensures f in EdgeFindings(table, edge) <==> EdgeRule(table, edge, f) {
        EdgeFindingsAreAll(table, edge, f);
      }
      assert edges[..k + 1] == edges[..k] + [edge];
      findings := findings + EdgeFindings(table, edge);
    }
    assert edges[..|edges|] == edges;
  }

  method EmptyPass(table: map<string, Node>, ghost edges: seq<Edge>)
    returns (adj: map<string, seq<string>>, indegree: map<string, int>, degree: map<string, int>,
             outgoing: map<string, seq<Condition>>)
    ensures LinksAgree(table.Keys, LintEdges(table, edges[..0]), adj, indegree)
    ensures DegreesAgree(table.Keys, LintEdges(table, edges[..0]), degree) && ConditionsAgree(table, edges[..0], outgoing)
  {
    adj := map id | id in table :: [];
    indegree := map id | id in table :: 0;
    degree := map id | id in table :: 0;
    outgoing := map id | id in table :: [];
    assert edges[..0] == [];
    assert LintEdges(table, []) == {};
    assert forall n :: Waiting(table.Keys, {}, {}, n) == {};
  }

  // ---- coverage and cycles ----

  // Verdicts no outgoing condition of a verify node covers, unless a default edge leaves it.
  function MissingVerdicts(conditions: seq<Condition>): set<string> {
    if Default in conditions then {} else set v | v in VERDICTS && Verdict(v) !in conditions
  }

  method LintCoverage(
    table: map<string, Node>, edges: seq<Edge>, degree: map<string, int>, outgoing: map<string, seq<Condition>>)
    returns (findings: set<Finding>)
    requires DegreesAgree(table.Keys, LintEdges(table, edges), degree) && ConditionsAgree(table, edges, outgoing)
    ensures forall f :: f in findings <==> CoverageRule(table, edges, f)
  {
    hide Touches, HasOutgoing, CoverageRule;
    findings := {};
    var left := table.Keys;
    while left != {}
      invariant left <= table.Keys
      invariant forall f :: f in findings <==> f.nodeId in table && f.nodeId !in left && CoverageRule(table, edges, f)
    {
      var id :| id in left;
      left := left - {id};
      ghost var before := findings;
      if edges != [] && |table| > 1 && degree[id] == 0 {
        findings := findings + {Finding(OrphanNode, id)};
      }
      if table[id].uses == "verify" && outgoing[id] != [] && MissingVerdicts(outgoing[id]) != {} {
        findings := findings + {Finding(IncompleteVerdictEdges, id)};
      }
      CoverageOf(table, edges, degree, outgoing, id);
      forall f ensures f in findings <==> f.nodeId in table && f.nodeId !in left && CoverageRule(table, edges, f) {
        CoverageKinds(table, edges, f);
      }
    }
    forall f ensures f in findings <==> CoverageRule(table, edges, f) {
      CoverageKinds(table, edges, f);
    }
  }

  lemma CoverageKinds(table: map<string, Node>, edges: seq<Edge>, f: Finding)
    ensures CoverageRule(table, edges, f) ==>
      f.nodeId in table && (f.rule == OrphanNode || f.rule == IncompleteVerdictEdges)
  {
  }

  lemma CoverageOf(
    table: map<string, Node>, edges: seq<Edge>, degree: map<string, int>, outgoing: map<string, seq<Condition>>,
    id: string)
    requires DegreesAgree(table.Keys, LintEdges(table, edges), degree) && ConditionsAgree(table, edges, outgoing) && id in table
    ensures CoverageRule(table, edges, Finding(OrphanNode, id)) <==> edges != [] && |table| > 1 && degree[id] == 0
    ensures CoverageRule(table, edges, Finding(IncompleteVerdictEdges, id)) <==>
      table[id].uses == "verify" && outgoing[id] != [] && MissingVerdicts(outgoing[id]) != {}
  {
    TouchesMeets(table, edges, id);
    hide Touches, HasOutgoing, Meets, LintEdges;
    var conditions := outgoing[id];
    if conditions != [] {
      assert conditions[0] in conditions;
      assert HasOutgoing(table, edges, id, conditions[0]);
    }
    if v :| v in VERDICTS && !HasOutgoing(table, edges, id, Verdict(v)) {
      assert !HasOutgoing(table, edges, id, Default) ==> v in MissingVerdicts(conditions);
    }
    if MissingVerdicts(conditions) != {} {
      var v :| v in MissingVerdicts(conditions);
      assert !HasOutgoing(table, edges, id, Verdict(v));
    }
  }

  // residualCycleNodes: Kahn's elimination again, keeping only what it cannot take.
  method ResidualCycleNodes(
    nodes: set<string>, ghost edges: set<(string, string)>, adj: map<string, seq<string>>, indegree: map<string, int>)
    returns (cycleNodes: seq<string>)
    requires LinksAgree(nodes, edges, adj, indegree)
    ensures StrictlySorted(cycleNodes) && forall n :: n in cycleNodes <==> n in Residual(nodes, edges)
  {
    hide KahnFrom, TopoPrefix;
    var degrees := indegree;
    ghost var order: seq<string> := [];
    NoElements(order);
    StartOfKahn(nodes, edges);
    var ready := Waves.InitialReady(nodes, edges, degrees);
    while ready != []
      invariant TopoPrefix(nodes, edges, order) && Elements(order) <= nodes
      invariant KahnFrom(nodes, edges, order) == KahnOrder(nodes, edges)
      invariant Waves.Counted(nodes, edges, Elements(order), degrees)
      invariant Distinct(ready) && Elements(ready) == Ready(nodes, edges, Elements(order))
      decreases |nodes - Elements(order)|
    {
      NoElements(ready);
      var id;
      id, ready := Waves.TakeLeast(ready);
      Waves.KahnStep(nodes, edges, order, id);
      degrees, ready := Waves.Release(nodes, edges, Elements(order), id, adj[id], degrees, ready);
      order := order + [id];
    }
    NoElements(ready);
    EndOfKahn(nodes, edges, order);
    var residual := Waves.ResidualOf(nodes, edges, degrees);
    cycleNodes := Waves.SortedSet(residual);
  }

  lemma StartOfKahn(nodes: set<string>, edges: set<(string, string)>)
    ensures TopoPrefix(nodes, edges, []) && Elements<string>([]) <= nodes
    ensures KahnFrom(nodes, edges, []) == KahnOrder(nodes, edges)
  {
  }

  lemma EndOfKahn(nodes: set<string>, edges: set<(string, string)>, order: seq<string>)
    requires Elements(order) <= nodes && Ready(nodes, edges, Elements(order)) == {}
    ensures KahnFrom(nodes, edges, order) == order
  {
  }

  method LintCycles(
    table: map<string, Node>, ghost edges: set<(string, string)>, adj: map<string, seq<string>>,
    indegree: map<string, int>)
    returns (findings: set<Finding>)
    requires LinksAgree(table.Keys, edges, adj, indegree)
    ensures forall f :: f in findings <==> CycleRule(table, edges, f)
  {
    hide Residual, LinksAgree, StrictlySorted;
    findings := {};
    var cycleNodes := ResidualCycleNodes(table.Keys, edges, adj, indegree);
    if cycleNodes == [] {
      assert Residual(table.Keys, edges) == {} by {
        forall n ensures n !in Residual(table.Keys, edges) {
        }
      }
      return;
    }
    assert cycleNodes[0] in cycleNodes;
    ResidualWithin(table.Keys, edges);
    assert forall n :: n in cycleNodes ==> n in table;
    for k := 0 to |cycleNodes|
      invariant forall j :: 0 <= j < k ==> table[cycleNodes[j]].maxVisits <= 0
    {
      assert cycleNodes[k] in Residual(table.Keys, edges);
      if table[cycleNodes[k]].maxVisits > 0 {
        return;
      }
    }
    forall n | n in Residual(table.Keys, edges) ensures table[n].maxVisits <= 0 {
      assert n in cycleNodes;
    }
    findings := {Finding(UnboundedCycle, "")};
  }

  lemma ResidualWithin(nodes: set<string>, edges: set<(string, string)>)
    ensures Residual(nodes, edges) <= nodes
  {
  }

  lemma EmptyFlowFinds(flow: Flow)
    requires flow.nodes == []
    ensures forall f :: f == Finding(EmptyFlow, "") <==> Finds(flow, f)
    ensures Blocked(flow)
  {
    assert Finds(flow, Finding(EmptyFlow, ""));
  }

  // The whole lint reports exactly the findings the rules describe.
  method Validate(flow: Flow) returns (findings: set<Finding>)
    ensures forall f :: f in findings <==> Finds(flow, f)
    ensures findings != {} <==> Blocked(flow)
  {
    if flow.nodes == [] {
      EmptyFlowFinds(flow);
      return {Finding(EmptyFlow, "")};
    }
    hide NodeRule, EdgeRule, CoverageRule, CycleRule, LintTable, LintEdges, LinksAgree, DegreesAgree, ConditionsAgree,
      Finds, Blocked;
    var table, nodeFindings := LintNodes(flow.nodes);
    var adj, indegree, degree, outgoing, edgeFindings := LintEdgePass(table, flow.edges);
    var coverageFindings := LintCoverage(table, flow.edges, degree, outgoing);
    var cycleFindings := LintCycles(table, LintEdges(table, flow.edges), adj, indegree);
    findings := nodeFindings + edgeFindings + coverageFindings + cycleFindings;
    FindsExactly(flow, nodeFindings, edgeFindings, coverageFindings, cycleFindings);
  }

  lemma FindsExactly(
    flow: Flow, nodeFindings: set<Finding>, edgeFindings: set<Finding>, coverageFindings: set<Finding>,
    cycleFindings: set<Finding>)
    requires flow.nodes != []
    requires forall f :: f in nodeFindings <==> NodeRule(flow.nodes, f)
    requires var table := LintTable(flow.nodes);
      && (forall f :: f in edgeFindings <==> exists e :: e in flow.edges && EdgeRule(table, e, f))
      && (forall f :: f in coverageFindings <==> CoverageRule(table, flow.edges, f))
      && (forall f :: f in cycleFindings <==> CycleRule(table, LintEdges(table, flow.edges), f))
    ensures var findings := nodeFindings + edgeFindings + coverageFindings + cycleFindings;
      && (forall f :: f in findings <==> Finds(flow, f))
      && (findings != {} <==> Blocked(flow))
  {
    hide NodeRule, EdgeRule, CoverageRule, CycleRule, LintTable, LintEdges;
    var findings := nodeFindings + edgeFindings + coverageFindings + cycleFindings;
    forall f ensures f in findings <==> Finds(flow, f) {
    }
    if findings != {} {
      var f :| f in findings;
      assert Finds(flow, f);
    }
  }

  // ---- the lint against the scheduler ----

  predicate TrimmedFlow(flow: Flow) {
    && (forall k :: 0 <= k < |flow.nodes| ==> TrimSpace(flow.nodes[k].id) == flow.nodes[k].id)
    && (forall e :: e in flow.edges ==> Ends(e) == (e.src, e.dst))
  }

  lemma UnblockedIds(flow: Flow)
    requires TrimmedFlow(flow) && !Blocked(flow)
    ensures LintTable(flow.nodes).Keys == NodeIds(flow)
    ensures NoDangling(flow)
    ensures LintEdges(LintTable(flow.nodes), flow.edges) == EdgeSet(flow.edges)
  {
    hide TrimSpace;
    var table := LintTable(flow.nodes);
    LintTableIds(flow.nodes);
    TableIds(flow.nodes);
    assert !Finds(flow, Finding(EmptyFlow, ""));
    assert !Finds(flow, Finding(EmptyNodeId, ""));
    forall id ensures id in table <==> id in NodeIds(flow) {
      if k :| 0 <= k < |flow.nodes| && flow.nodes[k].id == id {
        assert TrimSpace(flow.nodes[k].id) == id;
      }
    }
    forall e | e in flow.edges ensures Known(table, e) && Ends(e) == (e.src, e.dst) {
      assert !Finds(flow, Finding(DanglingEdge, ""));
      assert !EdgeRule(table, e, Finding(DanglingEdge, ""));
    }
    forall k ensures !DanglingAt(flow, k) {
      if 0 <= k < |flow.edges| {
        assert flow.edges[k] in flow.edges;
      }
    }
  }

  // A trimmed flow the lint lets through never dangles, and the scheduler reports a cycle exactly
  // when the lint's residual is not empty, naming its least member.
  method LintThenSchedule(flow: Flow) returns (findings: set<Finding>, cycleNodes: seq<string>, result: Waves.ScheduleResult)
    requires TrimmedFlow(flow)
    ensures findings != {} <==> Blocked(flow)
    ensures findings == {} ==> !result.Dangling?
    ensures findings == {} ==> (result.Cycle? <==> cycleNodes != [])
    ensures findings == {} && result.Cycle? ==> result.node == cycleNodes[0]
    ensures findings == {} ==> StrictlySorted(cycleNodes) && forall n :: n in cycleNodes <==>
      n in Residual(LintTable(flow.nodes).Keys, LintEdges(LintTable(flow.nodes), flow.edges))
  {
    findings := Validate(flow);
    result := Waves.ScheduleWaves(flow);
    cycleNodes := [];
    if findings == {} {
      UnblockedIds(flow);
      var table, nodeFindings := LintNodes(flow.nodes);
      var adj, indegree, degree, outgoing, edgeFindings := LintEdgePass(table, flow.edges);
      cycleNodes := ResidualCycleNodes(table.Keys, LintEdges(table, flow.edges), adj, indegree);
      SameResidual(flow, cycleNodes);
      if result.Cycle? {
        LeastUnique(Residual(NodeIds(flow), EdgeSet(flow.edges)), result.node, cycleNodes[0]);
      }
    }
  }

  lemma SameResidual(flow: Flow, cycleNodes: seq<string>)
    requires NoDangling(flow)
    requires StrictlySorted(cycleNodes)
    requires forall n :: n in cycleNodes <==> n in Residual(NodeIds(flow), EdgeSet(flow.edges))
    ensures HasCycle(EdgeSet(flow.edges)) <==> cycleNodes != []
    ensures cycleNodes != [] ==> IsLeast(cycleNodes[0], Residual(NodeIds(flow), EdgeSet(flow.edges)))
  {
    var residual := Residual(NodeIds(flow), EdgeSet(flow.edges));
    EdgesAreWithin(flow);
    ResidualIsBehindCycles(NodeIds(flow), EdgeSet(flow.edges));
    assert Elements(cycleNodes) == residual by {
      forall n ensures n in Elements(cycleNodes) <==> n in residual {
      }
    }
    NoElements(cycleNodes);
    if cycleNodes != [] {
      SortedHeadIsLeast(cycleNodes);
    }
  }

  lemma EdgesAreWithin(flow: Flow)
    requires NoDangling(flow)
    ensures EdgesWithin(NodeIds(flow), EdgeSet(flow.edges))
  {
    forall p | p in EdgeSet(flow.edges) ensures p.0 in NodeIds(flow) && p.1 in NodeIds(flow) {
      var e :| e in flow.edges && p == (e.src, e.dst);
      var k :| 0 <= k < |flow.edges| && flow.edges[k] == e;
      assert !DanglingAt(flow, k);
    }
  }
}
