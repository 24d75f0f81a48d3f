/** The graph store of main.py: nodes `(id, type, label)` and edges
    `(id, src, dest, date)` kept in insertion order, with the linear-scan
    lookups `node_already_exists`, `edge_already_exists` and `get_node_id`,
    and `create_node` / `create_edge`, which append in place. */
module GraphStore {

  /** A node tuple `(id, type, label)`; `type` and `label` are Dafny keywords, so the
      fields are called `kind` and `name`. */
  datatype Node = Node(id: nat, kind: string, name: string)

  /** An edge tuple `(id, src, dest, date)`. */
  datatype Edge = Edge(id: nat, src: nat, dest: nat, date: string)

  /** The test `node[1] == type and node[2] == label`. */
  predicate HasKey(n: Node, kind: string, name: string)
  {
    n.kind == kind && n.name == name
  }

  /** The test `edge[1] == src and edge[2] == dest and edge[3] == date`. */
  predicate LinksWith(e: Edge, src: nat, dest: nat, date: string)
  {
    e.src == src && e.dest == dest && e.date == date
  }

  /** `node_already_exists`: a scan from the front for a node of that type and name. */
  function NodeAlreadyExists(kind: string, name: string, nodes: seq<Node>): (b: bool)
    ensures b <==> exists i :: 0 <= i < |nodes| && HasKey(nodes[i], kind, name)
  {
    if |nodes| == 0 then false
    else HasKey(nodes[0], kind, name) || NodeAlreadyExists(kind, name, nodes[1..])
  }

  /** `edge_already_exists`: a scan from the front for an edge on that triple. */
  function EdgeAlreadyExists(src: nat, dest: nat, date: string, edges: seq<Edge>): (b: bool)
    ensures b <==> exists i :: 0 <= i < |edges| && LinksWith(edges[i], src, dest, date)
  {
    if |edges| == 0 then false
    else LinksWith(edges[0], src, dest, date) || EdgeAlreadyExists(src, dest, date, edges[1..])
  }

  /** Python's `v in node` for a string `v` and a node tuple: `v` equals one
      of the tuple's fields, and since the id is an integer, that means the
      type or the name. */
  predicate Mentions(n: Node, v: string)
  {
    v == n.kind || v == n.name
  }

  /** The test `type in node and label in node` of `get_node_id`. */
  predicate MentionsBoth(n: Node, kind: string, name: string)
  {
    Mentions(n, kind) && Mentions(n, name)
  }

  /** `get_node_id`: the id of the first node in which both values occur
      among its type and name fields, or -1 when there is none. */
  function GetNodeId(kind: string, name: string, nodes: seq<Node>): (r: int)
    ensures r >= -1
    ensures r == -1 <==> forall i :: 0 <= i < |nodes| ==> !MentionsBoth(nodes[i], kind, name)
    ensures r != -1 ==>
      exists k :: 0 <= k < |nodes| && nodes[k].id == r && MentionsBoth(nodes[k], kind, name) &&
        forall i :: 0 <= i < k ==> !MentionsBoth(nodes[i], kind, name)
  {
    if |nodes| == 0 then
      -1
    else if MentionsBoth(nodes[0], kind, name) then
      nodes[0].id
    else
      var r := GetNodeId(kind, name, nodes[1..]);
      if r != -1 then
        var k :| 0 <= k < |nodes[1..]| && nodes[1..][k].id == r && MentionsBoth(nodes[1..][k], kind, name) &&
          forall i :: 0 <= i < k ==> !MentionsBoth(nodes[1..][i], kind, name);
        assert forall i :: 0 <= i < k + 1 ==> !MentionsBoth(nodes[i], kind, name) by {
          forall i | 0 < i < k + 1 ensures !MentionsBoth(nodes[i], kind, name) {
            assert nodes[i] == nodes[1..][i - 1];
          }
        }
        r
      else
        assert forall i :: 0 < i < |nodes| ==> nodes[i] == nodes[1..][i - 1];
        r
  }

  /** Every node's id is its position in the node list. */
  predicate NodeIdsArePositions(nodes: seq<Node>)
  {
    forall i :: 0 <= i < |nodes| ==> nodes[i].id == i
  }

  /** Every edge's id is its position in the edge list. */
  predicate EdgeIdsArePositions(edges: seq<Edge>)
  {
    forall i :: 0 <= i < |edges| ==> edges[i].id == i
  }

  /** No two nodes share a (type, name) pair. */
  predicate UniqueNodes(nodes: seq<Node>)
  {
    forall i, j :: 0 <= i < j < |nodes| ==> !HasKey(nodes[j], nodes[i].kind, nodes[i].name)
  }

  /** No two edges share a (src, dest, date) triple. */
  predicate UniqueEdges(edges: seq<Edge>)
  {
    forall i, j :: 0 <= i < j < |edges| ==> !LinksWith(edges[j], edges[i].src, edges[i].dest, edges[i].date)
  }

  /** The four node types the builder creates. */
  predicate KnownKind(kind: string)
  {
    kind == "drug" || kind == "trial" || kind == "pubmed" || kind == "journal"
  }

  /** `id` is the id (and position) of a drug node. */
  predicate IsDrugNode(nodes: seq<Node>, id: nat)
  {
    id < |nodes| && nodes[id].kind == "drug"
  }

  /** Every edge leaves a drug node and enters a node of the list. */
  predicate EdgesWired(nodes: seq<Node>, edges: seq<Edge>)
  {
    forall i :: 0 <= i < |edges| ==> IsDrugNode(nodes, edges[i].src) && edges[i].dest < |nodes|
  }

  /** The shape of every graph the builder produces. */
  predicate WellFormed(nodes: seq<Node>, edges: seq<Edge>)
  {
    && NodeIdsArePositions(nodes)
    && EdgeIdsArePositions(edges)
    && UniqueNodes(nodes)
    && UniqueEdges(edges)
    && EdgesWired(nodes, edges)
    && (forall i :: 0 <= i < |nodes| ==> KnownKind(nodes[i].kind))
  }

  /** Once a node with this type and name exists in a list whose ids are
      positions, `get_node_id` resolves to a position of that list, at a node
      mentioning both values: the -1 branch cannot be taken. */
  lemma ExistingNodeResolves(kind: string, name: string, nodes: seq<Node>)
    requires NodeIdsArePositions(nodes)
    requires NodeAlreadyExists(kind, name, nodes)
    ensures 0 <= GetNodeId(kind, name, nodes) < |nodes|
    ensures MentionsBoth(nodes[GetNodeId(kind, name, nodes)], kind, name)
    ensures GetNodeId(kind, name, nodes) <= FirstWithKey(kind, name, nodes)
  {
    var j := FirstWithKey(kind, name, nodes);
    assert MentionsBoth(nodes[j], kind, name);
    var r := GetNodeId(kind, name, nodes);
    var k :| 0 <= k < |nodes| && nodes[k].id == r && MentionsBoth(nodes[k], kind, name) &&
      forall i :: 0 <= i < k ==> !MentionsBoth(nodes[i], kind, name);
    assert k <= j;
  }

  /** The position of the first node with this exact type and name. */
  function FirstWithKey(kind: string, name: string, nodes: seq<Node>): (j: nat)
    requires NodeAlreadyExists(kind, name, nodes)
    ensures j < |nodes| && HasKey(nodes[j], kind, name)
    ensures forall i :: 0 <= i < j ==> !HasKey(nodes[i], kind, name)
  {
    if HasKey(nodes[0], kind, name) then 0
    else 1 + FirstWithKey(kind, name, nodes[1..])
  }

  /** The tuple-membership test can pick a different node than the exact
      (type, name) match: a drug named "journal" listed before a journal
      named "drug" captures the lookup of the journal. */
  lemma GetNodeIdMayMissExactMatch()
    ensures var nodes := [Node(0, "drug", "journal"), Node(1, "journal", "drug")];
      NodeAlreadyExists("journal", "drug", nodes) &&
      GetNodeId("journal", "drug", nodes) == 0 &&
      !HasKey(nodes[0], "journal", "drug")
  {
    var nodes := [Node(0, "drug", "journal"), Node(1, "journal", "drug")];
    assert HasKey(nodes[1], "journal", "drug");
    assert MentionsBoth(nodes[0], "journal", "drug");
  }

  /** What `create_node` leaves behind (the list with `(id, type, label)`
      appended when the pair is new, else the list unchanged) still has no
      repeated (type, label) pair and now holds the pair, so a second
      identical call appends nothing. */
  lemma CreateNodeKeepsUnique(nodes: seq<Node>, id: nat, kind: string, name: string)
    requires UniqueNodes(nodes)
    ensures var after := if NodeAlreadyExists(kind, name, nodes) then nodes else nodes + [Node(id, kind, name)];
      UniqueNodes(after) && NodeAlreadyExists(kind, name, after) && |after| <= |nodes| + 1
  {
    if !NodeAlreadyExists(kind, name, nodes) {
      var after := nodes + [Node(id, kind, name)];
      assert HasKey(after[|nodes|], kind, name);
    }
  }

  /** The same for `create_edge` and the (src, dest, date) triple. */
  lemma CreateEdgeKeepsUnique(edges: seq<Edge>, id: nat, src: nat, dest: nat, date: string)
    requires UniqueEdges(edges)
    ensures var after := if EdgeAlreadyExists(src, dest, date, edges) then edges else edges + [Edge(id, src, dest, date)];
      UniqueEdges(after) && EdgeAlreadyExists(src, dest, date, after) && |after| <= |edges| + 1
  {
    if !EdgeAlreadyExists(src, dest, date, edges) {
      var after := edges + [Edge(id, src, dest, date)];
      assert LinksWith(after[|edges|], src, dest, date);
    }
  }

  /** The graph store: the two lists that main.py passes around and appends
      to in place. */
  class Graph {
    var nodes: seq<Node>
    var edges: seq<Edge>

    constructor ()
      ensures nodes == [] && edges == []
    {
      nodes := [];
      edges := [];
    }

    /** `create_node`: append `(id, type, label)` unless a node with that
        type and name exists; report whether it was appended. */
    method CreateNode(id: nat, kind: string, name: string) returns (created: bool)
      modifies this`nodes
      ensures created <==> !NodeAlreadyExists(kind, name, old(nodes))
      ensures nodes == if created then old(nodes) + [Node(id, kind, name)] else old(nodes)
    {
      if !NodeAlreadyExists(kind, name, nodes) {
        nodes := nodes + [Node(id, kind, name)];
        created := true;
      } else {
        created := false;
      }
    }

    /** `create_edge`: append `(id, src, dest, date)` unless an edge on that
        triple exists; report whether it was appended. */
    method CreateEdge(id: nat, src: nat, dest: nat, date: string) returns (created: bool)
      modifies this`edges
      ensures created <==> !EdgeAlreadyExists(src, dest, date, old(edges))
      ensures edges == if created then old(edges) + [Edge(id, src, dest, date)] else old(edges)
    {
      if !EdgeAlreadyExists(src, dest, date, edges) {
        edges := edges + [Edge(id, src, dest, date)];
        created := true;
      } else {
        created := false;
      }
    }
  }
}
