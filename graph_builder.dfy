/** `read_relationships` and `manage_references` of main.py: per drug, create
    the drug node, then a node and an edge for every trial, publication and
    journal that references it, threading the two id counters. */
module GraphBuilder {
  import opened GraphStore
  import opened ReferenceMatcher

  /** A drug row; only `drug[1]`, the name, is read. */
  datatype Drug = Drug(id: string, name: string)

  /** The builder's state between steps: both lists and both counters. */
  datatype Progress = Progress(nodes: seq<Node>, edges: seq<Edge>, nextNodeId: nat, nextEdgeId: nat)

  /** The empty graph with both counters at 0. */
  const Start := Progress([], [], 0, 0)

  /** Counters at the list lengths and the lists well formed. */
  predicate Valid(p: Progress)
  {
    p.nextNodeId == |p.nodes| && p.nextEdgeId == |p.edges| && WellFormed(p.nodes, p.edges)
  }

  /** `q` only appended to the lists of `p`. */
  predicate Extends(p: Progress, q: Progress)
  {
    |p.nodes| <= |q.nodes| && q.nodes[..|p.nodes|] == p.nodes &&
    |p.edges| <= |q.edges| && q.edges[..|p.edges|] == p.edges
  }

  /** One pass of the loop in `manage_references` for the reference `r`:
      create its node and an edge to it, or else look the existing node up
      and create the edge to it, advancing each counter only on creation. */
  function ManageRef(p: Progress, drugId: nat, r: Ref): Progress
  {
    if !NodeAlreadyExists(r.kind, r.name, p.nodes) then
      var nodes := p.nodes + [Node(p.nextNodeId, r.kind, r.name)];
      if !EdgeAlreadyExists(drugId, p.nextNodeId, r.date, p.edges) then
        Progress(nodes, p.edges + [Edge(p.nextEdgeId, drugId, p.nextNodeId, r.date)], p.nextNodeId + 1, p.nextEdgeId + 1)
      else
        Progress(nodes, p.edges, p.nextNodeId + 1, p.nextEdgeId)
    else
      var refId := GetNodeId(r.kind, r.name, p.nodes);
      if refId != -1 && !EdgeAlreadyExists(drugId, refId, r.date, p.edges) then
        Progress(p.nodes, p.edges + [Edge(p.nextEdgeId, drugId, refId, r.date)], p.nextNodeId, p.nextEdgeId + 1)
      else
        p
  }

  /** `manage_references` over a list of references, in order. */
  function ManageRefs(p: Progress, drugId: nat, refs: seq<Ref>): Progress
  {
    if |refs| == 0 then p
    else ManageRef(ManageRefs(p, drugId, refs[..|refs| - 1]), drugId, refs[|refs| - 1])
  }

  /** One pass of the loop in `read_relationships`: a drug whose name
      already labels a drug node is skipped; otherwise its node is created
      and its trial references, then its publication references, are
      managed. */
  function ProcessDrug(p: Progress, d: Drug, trials: seq<Record>, pubmed: seq<Record>): Progress
  {
    if NodeAlreadyExists("drug", d.name, p.nodes) then
      p
    else
      var drugId := p.nextNodeId;
      var withDrug := Progress(p.nodes + [Node(drugId, "drug", d.name)], p.edges, drugId + 1, p.nextEdgeId);
      var afterTrials := ManageRefs(withDrug, drugId, References(d.name, trials, "trial"));
      ManageRefs(afterTrials, drugId, References(d.name, pubmed, "pubmed"))
  }

  /** The drugs processed in order from `p`. */
  function BuildFrom(p: Progress, drugs: seq<Drug>, trials: seq<Record>, pubmed: seq<Record>): Progress
  {
    if |drugs| == 0 then p
    else ProcessDrug(BuildFrom(p, drugs[..|drugs| - 1], trials, pubmed), drugs[|drugs| - 1], trials, pubmed)
  }

  /** What `read_relationships` computes from its three inputs. */
  function Build(drugs: seq<Drug>, trials: seq<Record>, pubmed: seq<Record>): Progress
  {
    BuildFrom(Start, drugs, trials, pubmed)
  }

  /** Appending a node with a fresh (type, label) pair and the next id keeps
      the lists well formed. */
  lemma AddNodeWellFormed(nodes: seq<Node>, edges: seq<Edge>, n: Node)
    requires WellFormed(nodes, edges)
    requires n.id == |nodes| && KnownKind(n.kind) && !NodeAlreadyExists(n.kind, n.name, nodes)
    ensures WellFormed(nodes + [n], edges)
  {
    var after := nodes + [n];
    assert forall i :: 0 <= i < |nodes| ==> after[i] == nodes[i];
    forall i | 0 <= i < |edges| ensures IsDrugNode(after, edges[i].src) && edges[i].dest < |after| {
      assert IsDrugNode(nodes, edges[i].src);
    }
  }

  /** Appending a new edge with the next id, from a drug node to a node of
      the list, keeps the lists well formed. */
  lemma AddEdgeWellFormed(nodes: seq<Node>, edges: seq<Edge>, e: Edge)
    requires WellFormed(nodes, edges)
    requires e.id == |edges| && IsDrugNode(nodes, e.src) && e.dest < |nodes|
    requires !EdgeAlreadyExists(e.src, e.dest, e.date, edges)
    ensures WellFormed(nodes, edges + [e])
  {
    var after := edges + [e];
    assert forall i :: 0 <= i < |edges| ==> after[i] == edges[i];
  }

  /** A reference whose (type, label) pair is new: its node gets the next id
      and, since no edge can point at that id yet, an edge from the drug. */
  lemma NewNodeStep(p: Progress, drugId: nat, r: Ref)
    requires Valid(p) && IsDrugNode(p.nodes, drugId) && KnownKind(r.kind)
    requires !NodeAlreadyExists(r.kind, r.name, p.nodes)
    ensures ManageRef(p, drugId, r) == Progress(
      p.nodes + [Node(|p.nodes|, r.kind, r.name)], p.edges + [Edge(|p.edges|, drugId, |p.nodes|, r.date)],
      |p.nodes| + 1, |p.edges| + 1)
    ensures Valid(ManageRef(p, drugId, r))
  {
    var nodes := p.nodes + [Node(|p.nodes|, r.kind, r.name)];
    assert !EdgeAlreadyExists(drugId, |p.nodes|, r.date, p.edges);
    AddNodeWellFormed(p.nodes, p.edges, Node(|p.nodes|, r.kind, r.name));
    assert IsDrugNode(nodes, drugId) by {
      assert nodes[drugId] == p.nodes[drugId];
    }
    AddEdgeWellFormed(nodes, p.edges, Edge(|p.edges|, drugId, |p.nodes|, r.date));
  }

  /** A reference whose (type, label) pair exists: `get_node_id` resolves to
      a node of the list, and at most the edge to it is appended. */
  lemma ExistingNodeStep(p: Progress, drugId: nat, r: Ref)
    requires Valid(p) && IsDrugNode(p.nodes, drugId)
    requires NodeAlreadyExists(r.kind, r.name, p.nodes)
    ensures var refId := GetNodeId(r.kind, r.name, p.nodes);
      && 0 <= refId < |p.nodes|
      && ManageRef(p, drugId, r) ==
           if EdgeAlreadyExists(drugId, refId, r.date, p.edges) then p
           else Progress(p.nodes, p.edges + [Edge(|p.edges|, drugId, refId, r.date)], |p.nodes|, |p.edges| + 1)
    ensures Valid(ManageRef(p, drugId, r))
  {
    ExistingNodeResolves(r.kind, r.name, p.nodes);
    var refId := GetNodeId(r.kind, r.name, p.nodes);
    if !EdgeAlreadyExists(drugId, refId, r.date, p.edges) {
      AddEdgeWellFormed(p.nodes, p.edges, Edge(|p.edges|, drugId, refId, r.date));
    }
  }

  /** One reference keeps the graph well formed, appends at most one node
      and at most one edge, and wires every new edge from the current drug
      with the reference's date. A new node always gets its edge: nothing
      can already point at a node that did not exist. */
  lemma ManageRefStep(p: Progress, drugId: nat, r: Ref)
    requires Valid(p) && IsDrugNode(p.nodes, drugId) && KnownKind(r.kind)
    ensures var q := ManageRef(p, drugId, r);
      && Valid(q) && Extends(p, q)
      && |q.nodes| <= |p.nodes| + 1 && |q.edges| <= |p.edges| + 1
      && (|q.edges| == |p.edges| + 1 ==> q.edges[|p.edges|].src == drugId && q.edges[|p.edges|].date == r.date)
      && (|q.nodes| == |p.nodes| + 1 ==>
            q.nodes == p.nodes + [Node(|p.nodes|, r.kind, r.name)] &&
            q.edges == p.edges + [Edge(|p.edges|, drugId, |p.nodes|, r.date)])
  {
    var q := ManageRef(p, drugId, r);
    if !NodeAlreadyExists(r.kind, r.name, p.nodes) {
      NewNodeStep(p, drugId, r);
      assert q.nodes[..|p.nodes|] == p.nodes;
      assert q.edges[..|p.edges|] == p.edges;
    } else {
      ExistingNodeStep(p, drugId, r);
      assert q.edges[..|p.edges|] == p.edges;
      assert q.nodes[..|p.nodes|] == p.nodes;
    }
  }

  /** `manage_references` keeps the graph well formed, only appends, and
      every edge it appends leaves the current drug's node. */
  lemma {:induction false} ManageRefsPreserve(p: Progress, drugId: nat, refs: seq<Ref>)
    requires Valid(p) && IsDrugNode(p.nodes, drugId)
    requires forall i :: 0 <= i < |refs| ==> KnownKind(refs[i].kind)
    ensures Valid(ManageRefs(p, drugId, refs)) && Extends(p, ManageRefs(p, drugId, refs))
    ensures forall k :: |p.edges| <= k < |ManageRefs(p, drugId, refs).edges| ==> ManageRefs(p, drugId, refs).edges[k].src == drugId
  {
    if |refs| > 0 {
      var front := refs[..|refs| - 1];
      ManageRefsPreserve(p, drugId, front);
      var mid := ManageRefs(p, drugId, front);
      assert mid.nodes[..|p.nodes|] == p.nodes;
      ManageRefStep(mid, drugId, refs[|refs| - 1]);
      var q := ManageRefs(p, drugId, refs);
      assert q.nodes[..|p.nodes|] == mid.nodes[..|mid.nodes|][..|p.nodes|];
      assert q.edges[..|p.edges|] == mid.edges[..|mid.edges|][..|p.edges|];
      forall k | |p.edges| <= k < |q.edges| ensures q.edges[k].src == drugId {
        if k < |mid.edges| {
          assert q.edges[k] == q.edges[..|mid.edges|][k];
        }
      }
    }
  }

  /** Appending keeps an existing (type, label) pair present. */
  lemma ExistsInExtension(kind: string, name: string, p: Progress, q: Progress)
    requires Extends(p, q) && NodeAlreadyExists(kind, name, p.nodes)
    ensures NodeAlreadyExists(kind, name, q.nodes)
  {
    var i :| 0 <= i < |p.nodes| && HasKey(p.nodes[i], kind, name);
    assert q.nodes[i] == q.nodes[..|p.nodes|][i];
  }

  /** Appending to appended lists is appending. */
  lemma ExtendsTransitive(p: Progress, q: Progress, r: Progress)
    requires Extends(p, q) && Extends(q, r)
    ensures Extends(p, r)
  {
    assert r.nodes[..|p.nodes|] == r.nodes[..|q.nodes|][..|p.nodes|];
    assert r.edges[..|p.edges|] == r.edges[..|q.edges|][..|p.edges|];
  }

  /** The new drug node of `read_relationships` keeps the graph well formed. */
  lemma AddDrugNode(p: Progress, name: string)
    requires Valid(p) && !NodeAlreadyExists("drug", name, p.nodes)
    ensures var q := Progress(p.nodes + [Node(p.nextNodeId, "drug", name)], p.edges, p.nextNodeId + 1, p.nextEdgeId);
      Valid(q) && Extends(p, q) && IsDrugNode(q.nodes, p.nextNodeId) && NodeAlreadyExists("drug", name, q.nodes)
  {
    var q := Progress(p.nodes + [Node(p.nextNodeId, "drug", name)], p.edges, p.nextNodeId + 1, p.nextEdgeId);
    assert q.nodes[..|p.nodes|] == p.nodes;
    assert HasKey(q.nodes[p.nextNodeId], "drug", name);
  }

  /** A drug node stays a drug node while the lists are appended to. */
  lemma DrugNodeInExtension(p: Progress, q: Progress, id: nat)
    requires Extends(p, q) && IsDrugNode(p.nodes, id)
    ensures IsDrugNode(q.nodes, id)
  {
    assert q.nodes[id] == q.nodes[..|p.nodes|][id];
  }

  /** Processing a drug keeps the graph well formed, only appends, and leaves
      a drug node carrying its name. */
  lemma ProcessDrugPreserves(p: Progress, d: Drug, trials: seq<Record>, pubmed: seq<Record>)
    requires Valid(p)
    ensures var q := ProcessDrug(p, d, trials, pubmed);
      Valid(q) && Extends(p, q) && NodeAlreadyExists("drug", d.name, q.nodes)
  {
    if !NodeAlreadyExists("drug", d.name, p.nodes) {
      var drugId := p.nextNodeId;
      var withDrug := Progress(p.nodes + [Node(drugId, "drug", d.name)], p.edges, drugId + 1, p.nextEdgeId);
      AddDrugNode(p, d.name);
      var trialRefs := References(d.name, trials, "trial");
      ManageRefsPreserve(withDrug, drugId, trialRefs);
      var afterTrials := ManageRefs(withDrug, drugId, trialRefs);
      DrugNodeInExtension(withDrug, afterTrials, drugId);
      var pubmedRefs := References(d.name, pubmed, "pubmed");
      ManageRefsPreserve(afterTrials, drugId, pubmedRefs);
      var q := ManageRefs(afterTrials, drugId, pubmedRefs);
      ExtendsTransitive(withDrug, afterTrials, q);
      ExistsInExtension("drug", d.name, withDrug, q);
      ExtendsTransitive(p, withDrug, q);
    }
  }

  /** Building from a valid state stays valid and only appends. */
  lemma {:induction false} BuildFromPreserves(p: Progress, drugs: seq<Drug>, trials: seq<Record>, pubmed: seq<Record>)
    requires Valid(p)
    ensures Valid(BuildFrom(p, drugs, trials, pubmed)) && Extends(p, BuildFrom(p, drugs, trials, pubmed))
  {
    if |drugs| > 0 {
      var front := drugs[..|drugs| - 1];
      BuildFromPreserves(p, front, trials, pubmed);
      var mid := BuildFrom(p, front, trials, pubmed);
      ProcessDrugPreserves(mid, drugs[|drugs| - 1], trials, pubmed);
      var q := BuildFrom(p, drugs, trials, pubmed);
      assert q.nodes[..|p.nodes|] == q.nodes[..|mid.nodes|][..|p.nodes|];
      assert q.edges[..|p.edges|] == q.edges[..|mid.edges|][..|p.edges|];
    }
  }

  /** The built graph: ids are list positions, the counters equal the list
      lengths, no (type, label) or (src, dest, date) repeats, every edge runs
      from a drug node to a node of the list, and only the four known node
      types occur. */
  lemma BuildIsValid(drugs: seq<Drug>, trials: seq<Record>, pubmed: seq<Record>)
    ensures Valid(Build(drugs, trials, pubmed))
  {
    BuildFromPreserves(Start, drugs, trials, pubmed);
  }

  /** Once drugs[..j + 1] are processed, a drug node named drugs[j].name
      exists, and it stays through further drugs. */
  lemma {:induction false} DrugNodePersists(drugs: seq<Drug>, trials: seq<Record>, pubmed: seq<Record>, j: nat, i: nat)
    requires j < i <= |drugs|
    ensures NodeAlreadyExists("drug", drugs[j].name, BuildFrom(Start, drugs[..i], trials, pubmed).nodes)
    decreases i
  {
    var front := drugs[..i][..i - 1];
    assert front == drugs[..i - 1];
    BuildFromPreserves(Start, drugs[..i - 1], trials, pubmed);
    var mid := BuildFrom(Start, drugs[..i - 1], trials, pubmed);
    ProcessDrugPreserves(mid, drugs[i - 1], trials, pubmed);
    if j < i - 1 {
      DrugNodePersists(drugs, trials, pubmed, j, i - 1);
      ExistsInExtension("drug", drugs[j].name, mid, BuildFrom(Start, drugs[..i], trials, pubmed));
    }
  }

  /** First occurrence wins: a drug whose name an earlier drug already had
      adds no node and no edge. */
  lemma DuplicateDrugSkipped(drugs: seq<Drug>, trials: seq<Record>, pubmed: seq<Record>, j: nat, i: nat)
    requires j < i < |drugs| && drugs[j].name == drugs[i].name
    ensures BuildFrom(Start, drugs[..i + 1], trials, pubmed) == BuildFrom(Start, drugs[..i], trials, pubmed)
  {
    DrugNodePersists(drugs, trials, pubmed, j, i);
    assert drugs[..i + 1][..i] == drugs[..i];
  }

  /** How `read_relationships` reaches the result of one drug it does not skip. */
  lemma ProcessDrugCreates(p: Progress, d: Drug, trials: seq<Record>, pubmed: seq<Record>,
                           withDrug: Progress, afterTrials: Progress, q: Progress)
    requires !NodeAlreadyExists("drug", d.name, p.nodes)
    requires withDrug == Progress(p.nodes + [Node(p.nextNodeId, "drug", d.name)], p.edges, p.nextNodeId + 1, p.nextEdgeId)
    requires afterTrials == ManageRefs(withDrug, p.nextNodeId, References(d.name, trials, "trial"))
    requires q == ManageRefs(afterTrials, p.nextNodeId, References(d.name, pubmed, "pubmed"))
    ensures q == ProcessDrug(p, d, trials, pubmed)
  {
  }

  /** `manage_references` over one more reference. */
  lemma ManageRefsSnoc(p: Progress, drugId: nat, refs: seq<Ref>, i: nat)
    requires i < |refs|
    ensures ManageRefs(p, drugId, refs[..i + 1]) == ManageRef(ManageRefs(p, drugId, refs[..i]), drugId, refs[i])
  {
    assert refs[..i + 1][..i] == refs[..i];
  }

  /** The pass of `manage_references` that creates the reference's node,
      and the edge to it when `edgeCreated`. */
  lemma NodeCreatedStep(p: Progress, drugId: nat, r: Ref, edgeCreated: bool)
    requires !NodeAlreadyExists(r.kind, r.name, p.nodes)
    requires edgeCreated <==> !EdgeAlreadyExists(drugId, p.nextNodeId, r.date, p.edges)
    ensures ManageRef(p, drugId, r) == Progress(
      p.nodes + [Node(p.nextNodeId, r.kind, r.name)],
      if edgeCreated then p.edges + [Edge(p.nextEdgeId, drugId, p.nextNodeId, r.date)] else p.edges,
      p.nextNodeId + 1, if edgeCreated then p.nextEdgeId + 1 else p.nextEdgeId)
  {
  }

  /** The pass of `manage_references` that finds the reference's node at
      `refId`, and creates the edge to it when `edgeCreated`. */
  lemma NodeFoundStep(p: Progress, drugId: nat, r: Ref, refId: nat, edgeCreated: bool)
    requires NodeAlreadyExists(r.kind, r.name, p.nodes) && GetNodeId(r.kind, r.name, p.nodes) == refId
    requires edgeCreated <==> !EdgeAlreadyExists(drugId, refId, r.date, p.edges)
    ensures ManageRef(p, drugId, r) == Progress(
      p.nodes,
      if edgeCreated then p.edges + [Edge(p.nextEdgeId, drugId, refId, r.date)] else p.edges,
      p.nextNodeId, if edgeCreated then p.nextEdgeId + 1 else p.nextEdgeId)
  {
  }

  /** One pass of the loop of `manage_references`: create the reference's
      node and the edge to it, or, when the node exists, the edge to the node
      `get_node_id` resolves to; then advance the counters. */
  method ManageReference(g: Graph, drugId: nat, nodeId: nat, edgeId: nat, r: Ref)
    returns (nextNodeId: nat, nextEdgeId: nat)
    modifies g
    ensures Progress(g.nodes, g.edges, nextNodeId, nextEdgeId) ==
      ManageRef(Progress(old(g.nodes), old(g.edges), nodeId, edgeId), drugId, r)
  {
    ghost var before := Progress(g.nodes, g.edges, nodeId, edgeId);
    nextNodeId, nextEdgeId := nodeId, edgeId;
    var created := g.CreateNode(nextNodeId, r.kind, r.name);
    if created {
      var edgeCreated := g.CreateEdge(nextEdgeId, drugId, nextNodeId, r.date);
      if edgeCreated {
        nextEdgeId := nextEdgeId + 1;
      }
      nextNodeId := nextNodeId + 1;
      NodeCreatedStep(before, drugId, r, edgeCreated);
    } else {
      var refId := GetNodeId(r.kind, r.name, g.nodes);
      if refId != -1 {
        var edgeCreated := g.CreateEdge(nextEdgeId, drugId, refId, r.date);
        if edgeCreated {
          nextEdgeId := nextEdgeId + 1;
        }
        NodeFoundStep(before, drugId, r, refId, edgeCreated);
      }
    }
  }

  /** `manage_references`: the loop over the references of one drug. */
  method ManageReferences(g: Graph, drugId: nat, nodeId: nat, edgeId: nat, refs: seq<Ref>)
    returns (nextNodeId: nat, nextEdgeId: nat)
    modifies g
    ensures Progress(g.nodes, g.edges, nextNodeId, nextEdgeId) ==
      ManageRefs(Progress(old(g.nodes), old(g.edges), nodeId, edgeId), drugId, refs)
  {
    ghost var start := Progress(g.nodes, g.edges, nodeId, edgeId);
    nextNodeId, nextEdgeId := nodeId, edgeId;
    for i := 0 to |refs|
      invariant Progress(g.nodes, g.edges, nextNodeId, nextEdgeId) == ManageRefs(start, drugId, refs[..i])
    {
      ManageRefsSnoc(start, drugId, refs, i);
      nextNodeId, nextEdgeId := ManageReference(g, drugId, nextNodeId, nextEdgeId, refs[i]);
    }
    assert refs[..|refs|] == refs;
  }

  /** The drug loop over one more drug. */
  lemma BuildFromSnoc(drugs: seq<Drug>, trials: seq<Record>, pubmed: seq<Record>, i: nat)
    requires i < |drugs|
    ensures BuildFrom(Start, drugs[..i + 1], trials, pubmed) == ProcessDrug(BuildFrom(Start, drugs[..i], trials, pubmed), drugs[i], trials, pubmed)
  {
    assert drugs[..i + 1][..i] == drugs[..i];
  }

  /** `read_relationships`, with the three record lists as parameters. */
  method ReadRelationships(drugs: seq<Drug>, trials: seq<Record>, pubmed: seq<Record>)
    returns (nodes: seq<Node>, edges: seq<Edge>)
    ensures nodes == Build(drugs, trials, pubmed).nodes && edges == Build(drugs, trials, pubmed).edges
    ensures WellFormed(nodes, edges)
  {
    var g := new Graph();
    var currentNodeId, currentEdgeId := 0, 0;
    for i := 0 to |drugs|
      invariant Progress(g.nodes, g.edges, currentNodeId, currentEdgeId) == BuildFrom(Start, drugs[..i], trials, pubmed)
    {
      ghost var before := Progress(g.nodes, g.edges, currentNodeId, currentEdgeId);
      BuildFromSnoc(drugs, trials, pubmed, i);
      var currentDrug := drugs[i].name;
      var created := g.CreateNode(currentNodeId, "drug", currentDrug);
      if created {
        var currentDrugId := currentNodeId;
        currentNodeId := currentNodeId + 1;
        ghost var withDrug := Progress(g.nodes, g.edges, currentNodeId, currentEdgeId);
        assert withDrug == Progress(before.nodes + [Node(before.nextNodeId, "drug", drugs[i].name)], before.edges,
          before.nextNodeId + 1, before.nextEdgeId);
        var trialsReferences := CheckReferences(currentDrug, trials, "trial");
        currentNodeId, currentEdgeId := ManageReferences(g, currentDrugId, currentNodeId, currentEdgeId, trialsReferences);
        ghost var afterTrials := Progress(g.nodes, g.edges, currentNodeId, currentEdgeId);
        assert afterTrials == ManageRefs(withDrug, before.nextNodeId, References(drugs[i].name, trials, "trial"));
        var pubmedReferences := CheckReferences(currentDrug, pubmed, "pubmed");
        currentNodeId, currentEdgeId := ManageReferences(g, currentDrugId, currentNodeId, currentEdgeId, pubmedReferences);
        ghost var afterPubmed := Progress(g.nodes, g.edges, currentNodeId, currentEdgeId);
        assert afterPubmed == ManageRefs(afterTrials, before.nextNodeId, References(drugs[i].name, pubmed, "pubmed"));
        ProcessDrugCreates(before, drugs[i], trials, pubmed, withDrug, afterTrials, afterPubmed);
      } else {
        assert ProcessDrug(before, drugs[i], trials, pubmed) == before;
      }
    }
    assert drugs[..|drugs|] == drugs;
    nodes, edges := g.nodes, g.edges;
    BuildIsValid(drugs, trials, pubmed);
  }
}
