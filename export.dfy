/** The element list of `construct_json_data` in main.py: one entry per
    node, then one per edge, in list order. */
module Export {
  import opened Text
  import opened GraphStore

  /** The `data` dictionary of one element. A node's carries `id`, `label`
      and `classes`; an edge's carries `source` and `target`, with `classes`
      always "edge" and `label` always empty. The `label` key is called
      `caption` here, `label` being a Dafny keyword. */
  datatype Element =
    | NodeData(id: string, caption: string, classes: string)
    | EdgeData(source: string, target: string)
  {
    /** The value under the `classes` key. */
    function Classes(): string
    {
      if NodeData? then classes else "edge"
    }
  }

  /** The element of one node: its id printed in decimal, its type as the
      class, and its label, except that trial and publication nodes show an
      empty label. */
  function NodeElement(n: Node): Element
  {
    NodeData(NatToString(n.id), if n.kind != "pubmed" && n.kind != "trial" then n.name else "", n.kind)
  }

  /** The element of one edge: both endpoint ids printed in decimal. */
  function EdgeElement(e: Edge): Element
  {
    EdgeData(NatToString(e.src), NatToString(e.dest))
  }

  /** The node elements, one per node and in node order. */
  function NodeElements(nodes: seq<Node>): (r: seq<Element>)
    ensures |r| == |nodes|
    ensures forall i :: 0 <= i < |nodes| ==> r[i] == NodeElement(nodes[i])
  {
    if |nodes| == 0 then [] else NodeElements(nodes[..|nodes| - 1]) + [NodeElement(nodes[|nodes| - 1])]
  }

  /** The edge elements, one per edge and in edge order. */
  function EdgeElements(edges: seq<Edge>): (r: seq<Element>)
    ensures |r| == |edges|
    ensures forall j :: 0 <= j < |edges| ==> r[j] == EdgeElement(edges[j])
  {
    if |edges| == 0 then [] else EdgeElements(edges[..|edges| - 1]) + [EdgeElement(edges[|edges| - 1])]
  }

  /** The node elements of one more node. */
  lemma NodeElementsSnoc(nodes: seq<Node>, i: nat)
    requires i < |nodes|
    ensures NodeElements(nodes[..i + 1]) == NodeElements(nodes[..i]) + [NodeElement(nodes[i])]
  {
    assert nodes[..i + 1][..i] == nodes[..i];
  }

  /** The edge elements of one more edge. */
  lemma EdgeElementsSnoc(edges: seq<Edge>, j: nat)
    requires j < |edges|
    ensures EdgeElements(edges[..j + 1]) == EdgeElements(edges[..j]) + [EdgeElement(edges[j])]
  {
    assert edges[..j + 1][..j] == edges[..j];
  }

  /** Appending one element after a concatenation. */
  lemma AppendOne(a: seq<Element>, b: seq<Element>, x: Element)
    ensures a + b + [x] == a + (b + [x])
  {
  }

  /** The exported list holds the i-th node's element at i and the j-th
      edge's element right after all the nodes, at |nodes| + j. */
  lemma ElementsInOrder(nodes: seq<Node>, edges: seq<Edge>)
    ensures var elements := NodeElements(nodes) + EdgeElements(edges);
      && |elements| == |nodes| + |edges|
      && (forall i :: 0 <= i < |nodes| ==> elements[i] == NodeElement(nodes[i]))
      && (forall j :: 0 <= j < |edges| ==> elements[|nodes| + j] == EdgeElement(edges[j]))
  {
    var ns, es := NodeElements(nodes), EdgeElements(edges);
    forall i | 0 <= i < |nodes| ensures (ns + es)[i] == NodeElement(nodes[i]) {
      assert (ns + es)[i] == ns[i];
    }
    forall j | 0 <= j < |edges| ensures (ns + es)[|nodes| + j] == EdgeElement(edges[j]) {
      assert (ns + es)[|ns| + j] == es[j];
    }
  }

  /** `construct_json_data`, its element list only: the two loops that
      append the node elements and then the edge elements. */
  method ConstructJsonData(nodes: seq<Node>, edges: seq<Edge>) returns (elements: seq<Element>)
    ensures |elements| == |nodes| + |edges|
    ensures forall i :: 0 <= i < |nodes| ==> elements[i] == NodeElement(nodes[i])
    ensures forall j :: 0 <= j < |edges| ==> elements[|nodes| + j] == EdgeElement(edges[j])
    ensures elements == NodeElements(nodes) + EdgeElements(edges)
  {
    elements := [];
    for i := 0 to |nodes|
      invariant elements == NodeElements(nodes[..i])
    {
      NodeElementsSnoc(nodes, i);
      var node := nodes[i];
      var caption := if node.kind != "pubmed" && node.kind != "trial" then node.name else "";
      elements := elements + [NodeData(NatToString(node.id), caption, node.kind)];
    }
    assert nodes[..|nodes|] == nodes;
    ghost var nodePart := elements;
    for j := 0 to |edges|
      invariant elements == nodePart + EdgeElements(edges[..j])
    {
      EdgeElementsSnoc(edges, j);
      var edge := edges[j];
      AppendOne(nodePart, EdgeElements(edges[..j]), EdgeData(NatToString(edge.src), NatToString(edge.dest)));
      elements := elements + [EdgeData(NatToString(edge.src), NatToString(edge.dest))];
    }
    assert edges[..|edges|] == edges;
    ElementsInOrder(nodes, edges);
  }

  /** In a graph whose ids are positions, the exported node elements carry
      pairwise distinct ids, and the element at position i is labelled "i". */
  lemma ExportedIdsDistinct(nodes: seq<Node>, i: nat, k: nat)
    requires NodeIdsArePositions(nodes)
    requires i < |nodes| && k < |nodes|
    ensures NodeElements(nodes)[i].id == NatToString(i)
    ensures NodeElements(nodes)[i].id == NodeElements(nodes)[k].id ==> i == k
  {
    if NodeElements(nodes)[i].id == NodeElements(nodes)[k].id {
      NatToStringInjective(i, k);
    }
  }
}
