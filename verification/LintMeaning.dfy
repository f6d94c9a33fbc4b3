// What a flow must look like to pass the lint, in the words of the flow.
module LintMeaning {
  import opened Digraph
  import opened Text
  import opened FlowModel
  import opened FlowMeaning
  import FlowLint

  // ---- what is asked ----

  predicate NodePasses(m: Node) {
    && m.uses in {"mission", "workspace", "verify", "review", "apply"}
    && (forall key :: key in m.withKeys ==> key !in {"cli", "binary", "command", "executable"})
    && m.lane in {"", "cheap", "medium", "planner", "premium"}
    && m.maxVisits >= 0
  }

  ghost predicate DistinctIds(nodes: seq<Node>) {
    && (forall k :: 0 <= k < |nodes| ==> TrimSpace(nodes[k].id) != "")
    && (forall j, k :: 0 <= j < k < |nodes| ==> TrimSpace(nodes[j].id) != TrimSpace(nodes[k].id))
  }

  predicate Joins(e: Edge, a: Node, b: Node) {
    TrimSpace(e.src) == TrimSpace(a.id) && TrimSpace(e.dst) == TrimSpace(b.id)
  }

  // Verdicts come from verify nodes only; what did not run, and a verify node by default, never leads to
  // an apply node.
  ghost predicate EdgePasses(e: Edge, a: Node, b: Node) {
    && Readable(e.when)
    && (TrimSpace(e.when) != "default" && Fields(e.when)[0] == "verdict" ==> a.uses == "verify")
    && (Fields(e.when) == ["verdict", "==", "not_run"] ==> b.uses != "apply")
    && (TrimSpace(e.when) == "default" ==> a.uses != "verify" || b.uses != "apply")
  }

  ghost predicate JoinsAndPasses(nodes: seq<Node>, e: Edge) {
    exists a, b :: a in nodes && b in nodes && Joins(e, a, b) && EdgePasses(e, a, b)
  }

  predicate Leads(e: Edge, m: Node) {
    TrimSpace(e.src) == TrimSpace(m.id)
  }

  ghost predicate Connected(edges: seq<Edge>, m: Node) {
    exists e :: e in edges && (Leads(e, m) || TrimSpace(e.dst) == TrimSpace(m.id))
  }

  ghost predicate GoesOn(edges: seq<Edge>, m: Node) {
    exists e :: e in edges && Leads(e, m)
  }

  ghost predicate GoesOnByDefault(edges: seq<Edge>, m: Node) {
    exists e :: e in edges && Leads(e, m) && TrimSpace(e.when) == "default"
  }

  ghost predicate GoesOnWith(edges: seq<Edge>, m: Node, verdict: string) {
    exists e :: e in edges && Leads(e, m) && Fields(e.when) == ["verdict", "==", verdict]
  }

  // Some edge goes on by default, or each verdict has an edge.
  ghost predicate Covered(edges: seq<Edge>, m: Node) {
    || GoesOnByDefault(edges, m)
    || forall v :: v in {"pass", "fail", "timeout", "blocked", "not_run"} ==> GoesOnWith(edges, m, v)
  }

  ghost function TrimmedEdges(edges: seq<Edge>): set<(string, string)> {
    set e | e in edges :: (TrimSpace(e.src), TrimSpace(e.dst))
  }

  // Where there is a cycle, some node on or behind one has a visit limit.
  ghost predicate CyclesBounded(nodes: seq<Node>, links: set<(string, string)>) {
    HasCycle(links) ==> exists m, c ::
      m in nodes && m.maxVisits > 0 && OnCycle(links, c) && Reaches(links, c, TrimSpace(m.id))
  }

  ghost predicate Passes(flow: Flow) {
    && flow.nodes != [] && DistinctIds(flow.nodes)
    && (forall m :: m in flow.nodes ==> NodePasses(m))
    && (forall e :: e in flow.edges ==> JoinsAndPasses(flow.nodes, e))
    && (|flow.nodes| > 1 && flow.edges != [] ==> forall m :: m in flow.nodes ==> Connected(flow.edges, m))
    && (forall m :: m in flow.nodes && m.uses == "verify" && GoesOn(flow.edges, m) ==> Covered(flow.edges, m))
    && CyclesBounded(flow.nodes, TrimmedEdges(flow.edges))
  }

  // ---- the nodes ----

  ghost predicate TableFits(nodes: seq<Node>, table: map<string, Node>) {
    && (forall id :: id in table ==> exists m :: m in nodes && TrimSpace(m.id) == id)
    && (forall m :: m in nodes ==> TrimSpace(m.id) in table && table[TrimSpace(m.id)] == m.(id := TrimSpace(m.id)))
  }

  lemma DistinctBefore(nodes: seq<Node>)
    requires DistinctIds(nodes) && nodes != []
    ensures var init, last := nodes[..|nodes| - 1], nodes[|nodes| - 1];
      && DistinctIds(init) && TrimSpace(last.id) != ""
      && forall m :: m in init ==> TrimSpace(m.id) != TrimSpace(last.id)
  {
    hide TrimSpace;
    var init := nodes[..|nodes| - 1];
    assert forall j :: 0 <= j < |init| ==> init[j] == nodes[j];
    forall m | m in init ensures TrimSpace(m.id) != TrimSpace(nodes[|nodes| - 1].id) {
      var j :| 0 <= j < |init| && init[j] == m;
      assert TrimSpace(nodes[j].id) != TrimSpace(nodes[|init|].id);
    }
  }

  lemma TableNext(init: seq<Node>, last: Node, table: map<string, Node>)
    requires TableFits(init, table) && forall m :: m in init ==> TrimSpace(m.id) != TrimSpace(last.id)
    ensures var id := TrimSpace(last.id);
      id !in table && TableFits(init + [last], table[id := last.(id := id)])
      && |table[id := last.(id := id)]| == |table| + 1
  {
    hide TrimSpace;
    var id := TrimSpace(last.id);
    var after := table[id := last.(id := id)];
    assert after.Keys == table.Keys + {id} && |after| == |after.Keys| && |table| == |table.Keys|;
    assert last in init + [last];
  }

  lemma {:induction false} TableOfDistinct(nodes: seq<Node>)
    requires DistinctIds(nodes)
    ensures TableFits(nodes, FlowLint.LintTable(nodes)) && |FlowLint.LintTable(nodes)| == |nodes|
  {
    hide TrimSpace, DistinctIds, TableFits;
    if nodes == [] {
      assert TableFits([], map[]) by {
        NothingFits();
      }
    } else {
      var init, last := nodes[..|nodes| - 1], nodes[|nodes| - 1];
      DistinctBefore(nodes);
      TableOfDistinct(init);
      TableNext(init, last, FlowLint.LintTable(init));
      assert nodes == init + [last];
    }
  }

  lemma NothingFits()
    ensures TableFits([], map[])
  {
  }

  lemma KeptByText(m: Node, id: string)
    ensures (forall rule :: !FlowLint.KeptNodeRule(m.(id := id), rule)) <==> NodePasses(m)
  {
    assert FlowLint.KeptNodeRule(m.(id := id), FlowLint.NamedCLI) <==>
      !(forall key :: key in m.withKeys ==> key !in {"cli", "binary", "command", "executable"}) by {
      assert FlowLint.KeptNodeRule(m.(id := id), FlowLint.NamedCLI) <==> m.withKeys * FlowLint.CLI_KEYS != {};
      if m.withKeys * FlowLint.CLI_KEYS != {} {
        var key :| key in m.withKeys * FlowLint.CLI_KEYS;
      }
      if key :| key in m.withKeys && key in {"cli", "binary", "command", "executable"} {
        assert key in m.withKeys * FlowLint.CLI_KEYS;
      }
    }
    assert FlowLint.KeptNodeRule(m.(id := id), FlowLint.UnknownCapability) <==> m.uses !in FlowLint.KNOWN_USES;
    assert FlowLint.KeptNodeRule(m.(id := id), FlowLint.UnknownLane) <==> m.lane != "" && m.lane !in FlowLint.LANES;
    assert FlowLint.KeptNodeRule(m.(id := id), FlowLint.InvalidMaxVisits) <==> m.maxVisits < 0;
  }

  lemma DistinctByText(nodes: seq<Node>)
    ensures DistinctIds(nodes) <==>
      && (forall id :: !FlowLint.NodeRule(nodes, FlowLint.Finding(FlowLint.EmptyNodeId, id)))
      && (forall id :: !FlowLint.NodeRule(nodes, FlowLint.Finding(FlowLint.DuplicateNodeId, id)))
  {
    hide TrimSpace;
    if (forall id :: !FlowLint.NodeRule(nodes, FlowLint.Finding(FlowLint.EmptyNodeId, id)))
       && (forall id :: !FlowLint.NodeRule(nodes, FlowLint.Finding(FlowLint.DuplicateNodeId, id))) {
      assert !FlowLint.NodeRule(nodes, FlowLint.Finding(FlowLint.EmptyNodeId, ""));
      forall j, k | 0 <= j < k < |nodes| ensures TrimSpace(nodes[j].id) != TrimSpace(nodes[k].id) {
        assert !FlowLint.NodeRule(nodes, FlowLint.Finding(FlowLint.DuplicateNodeId, TrimSpace(nodes[j].id)));
      }
    }
  }

  lemma NodesByText(nodes: seq<Node>)
    ensures (forall f :: !FlowLint.NodeRule(nodes, f)) <==> DistinctIds(nodes) && forall m :: m in nodes ==> NodePasses(m)
  {
    hide TrimSpace, FlowLint.LintTable, DistinctIds, TableFits, NodePasses, FlowLint.NodeRule;
    DistinctByText(nodes);
    if DistinctIds(nodes) {
      TableOfDistinct(nodes);
      if forall m :: m in nodes ==> NodePasses(m) {
        forall f ensures !FlowLint.NodeRule(nodes, f) {
          NoNodeRule(nodes, f);
        }
      }
      if forall f :: !FlowLint.NodeRule(nodes, f) {
        forall m | m in nodes ensures NodePasses(m) {
          NoKeptRule(nodes, m);
        }
      }
    }
  }

  lemma NoNodeRule(nodes: seq<Node>, f: FlowLint.Finding)
    requires DistinctIds(nodes) && TableFits(nodes, FlowLint.LintTable(nodes))
    requires forall m :: m in nodes ==> NodePasses(m)
    ensures !FlowLint.NodeRule(nodes, f)
  {
    DistinctByText(nodes);
    hide TrimSpace, FlowLint.LintTable, DistinctIds, NodePasses, FlowLint.KeptNodeRule;
    if f.rule != FlowLint.EmptyNodeId && f.rule != FlowLint.DuplicateNodeId && f.nodeId in FlowLint.LintTable(nodes) {
      var m :| m in nodes && TrimSpace(m.id) == f.nodeId;
      KeptByText(m, f.nodeId);
    }
  }

  lemma NoKeptRule(nodes: seq<Node>, m: Node)
    requires TableFits(nodes, FlowLint.LintTable(nodes)) && m in nodes && forall f :: !FlowLint.NodeRule(nodes, f)
    ensures NodePasses(m)
  {
    var id := TrimSpace(m.id);
    KeptByText(m, id);
    hide TrimSpace, FlowLint.LintTable, NodePasses;
    forall rule ensures !FlowLint.KeptNodeRule(m.(id := id), rule) {
      assert !FlowLint.NodeRule(nodes, FlowLint.Finding(rule, id));
    }
  }

  // ---- the edges ----

  lemma EdgeByText(nodes: seq<Node>, table: map<string, Node>, e: Edge)
    requires TableFits(nodes, table)
    ensures (forall f :: !FlowLint.EdgeRule(table, e, f)) <==> JoinsAndPasses(nodes, e)
  {
    hide TrimSpace, Fields, EdgePasses;
    if FlowLint.Known(table, e) {
      var a :| a in nodes && TrimSpace(a.id) == TrimSpace(e.src);
      var b :| b in nodes && TrimSpace(b.id) == TrimSpace(e.dst);
      assert table[TrimSpace(e.src)] == a.(id := TrimSpace(a.id)) && table[TrimSpace(e.dst)] == b.(id := TrimSpace(b.id));
      PassesByText(table, e, a, b);
      forall c, d | c in nodes && d in nodes && Joins(e, c, d) ensures c.uses == a.uses && d.uses == b.uses {
        assert table[TrimSpace(c.id)].uses == c.uses && table[TrimSpace(d.id)].uses == d.uses;
      }
      hide FlowLint.EdgeRule;
      assert Joins(e, a, b);
      SameUses(e, a, b);
    } else {
      assert FlowLint.EdgeRule(table, e, FlowLint.Finding(FlowLint.DanglingEdge, ""));
    }
  }

  lemma SameUses(e: Edge, a: Node, b: Node)
    ensures forall c: Node, d: Node :: c.uses == a.uses && d.uses == b.uses ==> (EdgePasses(e, c, d) <==> EdgePasses(e, a, b))
  {
    hide TrimSpace, Fields, Readable;
  }

  lemma PassesByText(table: map<string, Node>, e: Edge, a: Node, b: Node)
    requires FlowLint.Known(table, e)
    requires table[TrimSpace(e.src)].uses == a.uses && table[TrimSpace(e.dst)].uses == b.uses
    ensures (forall f :: !FlowLint.EdgeRule(table, e, f)) <==> EdgePasses(e, a, b)
  {
    hide TrimSpace, Fields;
    ReadableExactly(e.when);
    ConditionByText(e.when);
    hide Readable, FlowLint.ParseCondition;
    var src, dst := TrimSpace(e.src), TrimSpace(e.dst);
    var c := FlowLint.ParseCondition(e.when);
    assert FlowLint.EdgeRule(table, e, FlowLint.Finding(FlowLint.InvalidCondition, "")) <==> c.Invalid?;
    assert FlowLint.EdgeRule(table, e, FlowLint.Finding(FlowLint.VerdictSourceNotVerify, src)) <==>
      c.Verdict? && a.uses != "verify";
    assert FlowLint.EdgeRule(table, e, FlowLint.Finding(FlowLint.NotRunApply, dst)) <==>
      c == FlowLint.Verdict("not_run") && b.uses == "apply";
    assert FlowLint.EdgeRule(table, e, FlowLint.Finding(FlowLint.DefaultApply, dst)) <==>
      c.Default? && a.uses == "verify" && b.uses == "apply";
  }

  lemma ConditionByText(text: string)
    ensures var c := FlowLint.ParseCondition(text);
      && (c.Default? <==> TrimSpace(text) == "default")
      && (Readable(text) ==> (c.Verdict? <==> TrimSpace(text) != "default" && Fields(text)[0] == "verdict"))
      && (forall v :: c == FlowLint.Verdict(v) ==> Fields(text) == ["verdict", "==", v])
      && (forall v :: Readable(text) && Fields(text) == ["verdict", "==", v] ==> c == FlowLint.Verdict(v))
  {
    if TrimSpace(text) == "default" {
      DefaultIsOneWord(text);
      hide TrimSpace, Fields, Readable;
    } else {
      ReadableExactly(text);
      hide TrimSpace, Fields, Readable;
      OtherByText(text);
      hide FlowLint.ParseCondition;
    }
  }

  lemma OtherByText(text: string)
    requires TrimSpace(text) != "default"
    ensures var c := FlowLint.ParseCondition(text);
      && !c.Default? && (!c.Invalid? ==> |Fields(text)| == 3)
      && (!c.Invalid? ==> (c.Verdict? <==> Fields(text)[0] == "verdict"))
      && (forall v :: c == FlowLint.Verdict(v) ==> Fields(text) == ["verdict", "==", v])
      && (forall v :: !c.Invalid? && Fields(text) == ["verdict", "==", v] ==> c == FlowLint.Verdict(v))
  {
    hide TrimSpace, Fields;
    var parts := Fields(text);
    if |parts| == 3 {
      assert parts == [parts[0], parts[1], parts[2]];
    }
  }

  // ---- coverage and cycles ----

  lemma CoverageByText(nodes: seq<Node>, table: map<string, Node>, edges: seq<Edge>)
    requires TableFits(nodes, table) && |table| == |nodes|
    requires forall e :: e in edges ==> JoinsAndPasses(nodes, e)
    ensures (forall f :: !FlowLint.CoverageRule(table, edges, f)) <==>
      && (|nodes| > 1 && edges != [] ==> forall m :: m in nodes ==> Connected(edges, m))
      && (forall m :: m in nodes && m.uses == "verify" && GoesOn(edges, m) ==> Covered(edges, m))
  {
    hide TrimSpace, JoinsAndPasses, Connected, Covered, GoesOn, FlowLint.Touches, FlowLint.HasOutgoing;
    AllKnown(nodes, table, edges);
    forall m | m in nodes
      ensures FlowLint.CoverageRule(table, edges, FlowLint.Finding(FlowLint.OrphanNode, TrimSpace(m.id))) <==>
        edges != [] && |nodes| > 1 && !Connected(edges, m) {
      ConnectedByText(nodes, table, edges, m);
    }
    forall m | m in nodes
      ensures FlowLint.CoverageRule(table, edges, FlowLint.Finding(FlowLint.IncompleteVerdictEdges, TrimSpace(m.id))) <==>
        m.uses == "verify" && GoesOn(edges, m) && !Covered(edges, m) {
      CoveredByText(nodes, table, edges, m);
    }
    hide FlowLint.CoverageRule, Leads;
    forall f | FlowLint.CoverageRule(table, edges, f)
      ensures f.rule == FlowLint.OrphanNode || f.rule == FlowLint.IncompleteVerdictEdges
      ensures exists m :: m in nodes && TrimSpace(m.id) == f.nodeId {
      CoverageNames(nodes, table, edges, f);
    }
  }

  lemma CoverageNames(nodes: seq<Node>, table: map<string, Node>, edges: seq<Edge>, f: FlowLint.Finding)
    requires TableFits(nodes, table) && FlowLint.CoverageRule(table, edges, f)
    ensures f.rule == FlowLint.OrphanNode || f.rule == FlowLint.IncompleteVerdictEdges
    ensures f == FlowLint.Finding(f.rule, f.nodeId) && exists m :: m in nodes && TrimSpace(m.id) == f.nodeId
  {
    hide TrimSpace, FlowLint.Touches, FlowLint.HasOutgoing;
  }

  lemma AllKnown(nodes: seq<Node>, table: map<string, Node>, edges: seq<Edge>)
    requires TableFits(nodes, table) && forall e :: e in edges ==> JoinsAndPasses(nodes, e)
    ensures forall e :: e in edges ==> FlowLint.Known(table, e) && Readable(e.when)
  {
    hide TrimSpace, Readable, Fields;
    forall e | e in edges ensures FlowLint.Known(table, e) && Readable(e.when) {
      var a, b :| a in nodes && b in nodes && Joins(e, a, b) && EdgePasses(e, a, b);
    }
  }

  lemma ConnectedByText(nodes: seq<Node>, table: map<string, Node>, edges: seq<Edge>, m: Node)
    requires TableFits(nodes, table) && |table| == |nodes| && m in nodes
    requires forall e :: e in edges ==> FlowLint.Known(table, e)
    ensures FlowLint.CoverageRule(table, edges, FlowLint.Finding(FlowLint.OrphanNode, TrimSpace(m.id))) <==>
      edges != [] && |nodes| > 1 && !Connected(edges, m)
  {
    hide TrimSpace;
    assert FlowLint.Touches(table, edges, TrimSpace(m.id)) <==> Connected(edges, m) by {
      if e :| e in edges && (Leads(e, m) || TrimSpace(e.dst) == TrimSpace(m.id)) {
        assert FlowLint.Known(table, e);
      }
      hide FlowLint.Known;
    }
    hide FlowLint.Touches, Connected;
  }

  lemma OutgoingByText(table: map<string, Node>, edges: seq<Edge>, m: Node)
    requires forall e :: e in edges ==> FlowLint.Known(table, e) && Readable(e.when)
    ensures (exists c :: FlowLint.HasOutgoing(table, edges, TrimSpace(m.id), c)) <==> GoesOn(edges, m)
    ensures FlowLint.HasOutgoing(table, edges, TrimSpace(m.id), FlowLint.Default) <==> GoesOnByDefault(edges, m)
    ensures forall v :: FlowLint.HasOutgoing(table, edges, TrimSpace(m.id), FlowLint.Verdict(v)) <==> GoesOnWith(edges, m, v)
  {
    hide TrimSpace, Fields, Readable, FlowLint.ParseCondition, FlowLint.Known;
    var id := TrimSpace(m.id);
    forall e | e in edges
      ensures FlowLint.Leaves(table, e, id, FlowLint.ParseCondition(e.when)) <==> Leads(e, m)
      ensures FlowLint.ParseCondition(e.when).Default? <==> TrimSpace(e.when) == "default"
      ensures forall v :: FlowLint.ParseCondition(e.when) == FlowLint.Verdict(v) <==> Fields(e.when) == ["verdict", "==", v] {
      ConditionByText(e.when);
      ReadableExactly(e.when);
    }
    hide Leads;
    if e :| e in edges && Leads(e, m) {
      assert FlowLint.HasOutgoing(table, edges, id, FlowLint.ParseCondition(e.when));
    }
    if e :| e in edges && Leads(e, m) && TrimSpace(e.when) == "default" {
      assert FlowLint.Leaves(table, e, id, FlowLint.Default);
    }
    forall v | GoesOnWith(edges, m, v)
      ensures FlowLint.HasOutgoing(table, edges, id, FlowLint.Verdict(v)) {
      var e :| e in edges && Leads(e, m) && Fields(e.when) == ["verdict", "==", v];
      assert FlowLint.Leaves(table, e, id, FlowLint.Verdict(v));
    }
  }

  lemma UsesInTable(nodes: seq<Node>, table: map<string, Node>, m: Node)
    requires TableFits(nodes, table) && m in nodes
    ensures TrimSpace(m.id) in table && table[TrimSpace(m.id)].uses == m.uses
  {
    hide TrimSpace;
  }

  lemma CoveredByText(nodes: seq<Node>, table: map<string, Node>, edges: seq<Edge>, m: Node)
    requires TableFits(nodes, table) && m in nodes
    requires forall e :: e in edges ==> FlowLint.Known(table, e) && Readable(e.when)
    ensures FlowLint.CoverageRule(table, edges, FlowLint.Finding(FlowLint.IncompleteVerdictEdges, TrimSpace(m.id))) <==>
      m.uses == "verify" && GoesOn(edges, m) && !Covered(edges, m)
  {
    hide TrimSpace, FlowLint.HasOutgoing, Readable, FlowLint.Known, GoesOn, GoesOnByDefault, GoesOnWith, TableFits;
    OutgoingByText(table, edges, m);
    UsesInTable(nodes, table, m);
    assert Covered(edges, m) <==>
      GoesOnByDefault(edges, m) || forall v :: v in FlowLint.VERDICTS ==> GoesOnWith(edges, m, v);
    hide Covered;
  }

  lemma LinksByText(table: map<string, Node>, edges: seq<Edge>)
    requires forall e :: e in edges ==> FlowLint.Known(table, e)
    ensures FlowLint.LintEdges(table, edges) == TrimmedEdges(edges)
    ensures EdgesWithin(table.Keys, TrimmedEdges(edges))
  {
    hide TrimSpace;
  }

  lemma CyclesByText(nodes: seq<Node>, table: map<string, Node>, links: set<(string, string)>)
    requires TableFits(nodes, table) && EdgesWithin(table.Keys, links)
    ensures (forall f :: !FlowLint.CycleRule(table, links, f)) <==> CyclesBounded(nodes, links)
  {
    var f := FlowLint.Finding(FlowLint.UnboundedCycle, "");
    forall g | FlowLint.CycleRule(table, links, g) ensures g == f {
    }
    if FlowLint.CycleRule(table, links, f) {
      UnboundedByText(nodes, table, links);
    } else {
      BoundedByText(nodes, table, links);
    }
    hide FlowLint.CycleRule, CyclesBounded, EdgesWithin, TableFits;
  }

  lemma UnboundedByText(nodes: seq<Node>, table: map<string, Node>, links: set<(string, string)>)
    requires TableFits(nodes, table) && EdgesWithin(table.Keys, links)
    requires FlowLint.CycleRule(table, links, FlowLint.Finding(FlowLint.UnboundedCycle, ""))
    ensures !CyclesBounded(nodes, links)
  {
    ResidualIsBehindCycles(table.Keys, links);
    hide TrimSpace, HasCycle, OnCycle, Reaches, Residual, EdgesWithin;
    forall m, c | m in nodes && OnCycle(links, c) && Reaches(links, c, TrimSpace(m.id)) ensures m.maxVisits <= 0 {
      assert TrimSpace(m.id) in Residual(table.Keys, links);
    }
  }

  lemma SomeBounded(table: map<string, Node>, links: set<(string, string)>) returns (id: string)
    requires !FlowLint.CycleRule(table, links, FlowLint.Finding(FlowLint.UnboundedCycle, ""))
    requires Residual(table.Keys, links) != {} && Residual(table.Keys, links) <= table.Keys
    ensures id in Residual(table.Keys, links) && table[id].maxVisits > 0
  {
    hide Residual;
    id :| id in Residual(table.Keys, links) && table[id].maxVisits > 0;
  }

  lemma BoundedByText(nodes: seq<Node>, table: map<string, Node>, links: set<(string, string)>)
    requires TableFits(nodes, table) && EdgesWithin(table.Keys, links)
    requires !FlowLint.CycleRule(table, links, FlowLint.Finding(FlowLint.UnboundedCycle, ""))
    ensures CyclesBounded(nodes, links)
  {
    hide TrimSpace, HasCycle, OnCycle, Reaches, Residual, EdgesWithin, FlowLint.CycleRule;
    ResidualIsBehindCycles(table.Keys, links);
    if HasCycle(links) {
      var id := SomeBounded(table, links);
      var m :| m in nodes && TrimSpace(m.id) == id;
      var c :| OnCycle(links, c) && Reaches(links, c, id);
      assert m.maxVisits > 0;
    }
  }

  // ---- the flow ----

  // The lint lets a flow through exactly when it is as asked.
  lemma PassesExactly(flow: Flow)
    ensures FlowLint.Blocked(flow) <==> !Passes(flow)
  {
    if flow.nodes == [] {
      assert FlowLint.Finds(flow, FlowLint.Finding(FlowLint.EmptyFlow, ""));
    } else {
      BlockedByRule(flow);
      RulesByText(flow);
    }
  }

  ghost predicate NoRule(flow: Flow, table: map<string, Node>) {
    && (forall f :: !FlowLint.NodeRule(flow.nodes, f))
    && (forall e :: e in flow.edges ==> forall f :: !FlowLint.EdgeRule(table, e, f))
    && (forall f :: !FlowLint.CoverageRule(table, flow.edges, f))
    && (forall f :: !FlowLint.CycleRule(table, FlowLint.LintEdges(table, flow.edges), f))
  }

  lemma BlockedByRule(flow: Flow)
    requires flow.nodes != []
    ensures FlowLint.Blocked(flow) <==> !NoRule(flow, FlowLint.LintTable(flow.nodes))
  {
    hide FlowLint.NodeRule, FlowLint.EdgeRule, FlowLint.CoverageRule, FlowLint.CycleRule, FlowLint.LintTable,
      FlowLint.LintEdges;
    if !NoRule(flow, FlowLint.LintTable(flow.nodes)) {
      SomeFinding(flow);
    }
  }

  lemma SomeFinding(flow: Flow)
    requires flow.nodes != [] && !NoRule(flow, FlowLint.LintTable(flow.nodes))
    ensures FlowLint.Blocked(flow)
  {
    hide FlowLint.NodeRule, FlowLint.EdgeRule, FlowLint.CoverageRule, FlowLint.CycleRule, FlowLint.LintTable,
      FlowLint.LintEdges;
    var table := FlowLint.LintTable(flow.nodes);
    if f :| FlowLint.NodeRule(flow.nodes, f) {
      assert FlowLint.Finds(flow, f);
    } else if e, f :| e in flow.edges && FlowLint.EdgeRule(table, e, f) {
      assert FlowLint.Finds(flow, f);
    } else if f :| FlowLint.CoverageRule(table, flow.edges, f) {
      assert FlowLint.Finds(flow, f);
    } else {
      var f :| FlowLint.CycleRule(table, FlowLint.LintEdges(table, flow.edges), f);
      assert FlowLint.Finds(flow, f);
    }
  }

  lemma RulesByText(flow: Flow)
    requires flow.nodes != []
    ensures NoRule(flow, FlowLint.LintTable(flow.nodes)) <==> Passes(flow)
  {
    hide FlowLint.NodeRule, FlowLint.EdgeRule, FlowLint.CoverageRule, FlowLint.CycleRule, FlowLint.LintTable,
      FlowLint.LintEdges, TableFits, DistinctIds, NodePasses, JoinsAndPasses, Connected, Covered, GoesOn, CyclesBounded;
    var nodes, edges, table := flow.nodes, flow.edges, FlowLint.LintTable(flow.nodes);
    NodesByText(nodes);
    if DistinctIds(nodes) {
      TableOfDistinct(nodes);
      forall e | e in edges ensures (forall f :: !FlowLint.EdgeRule(table, e, f)) <==> JoinsAndPasses(nodes, e) {
        EdgeByText(nodes, table, e);
      }
      if forall e :: e in edges ==> JoinsAndPasses(nodes, e) {
        AllKnown(nodes, table, edges);
        CoverageByText(nodes, table, edges);
        LinksByText(table, edges);
        CyclesByText(nodes, table, TrimmedEdges(edges));
      }
    }
  }
}
