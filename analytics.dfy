/** `journal_analytic` of main.py and its helpers `get_journals`,
    `get_edges` and `count_references`, over the element list that
    `construct_json_data` exports. */
module Analytics {
  import opened Text
  import opened GraphStore
  import opened Export

  /** A journal entry `(id, label)` taken from a node element. */
  datatype Journal = Journal(id: string, caption: string)

  /** An edge entry `(source, target)` taken from an edge element. */
  datatype EdgeEnds = EdgeEnds(source: string, target: string)

  /** The Python exceptions the analytics can raise: a node element classed
      "edge" has no `source` key, and `journals[0]` fails on no journals. */
  datatype Failure = KeyError | IndexError

  datatype Result<T> = Ok(value: T) | Err(failure: Failure)

  /** The pair `(max_ref_journal, max_ref)` returned by `journal_analytic`. */
  datatype Best = Best(journal: Journal, references: nat)

  /** What `get_journals` collects: the elements classed "journal", in order. */
  function JournalsOf(elements: seq<Element>): seq<Journal>
  {
    if |elements| == 0 then []
    else
      var e := elements[|elements| - 1];
      JournalsOf(elements[..|elements| - 1]) + (if e.Classes() == "journal" then [Journal(e.id, e.caption)] else [])
  }

  /** What `get_edges` collects: the elements classed "edge", in order, or
      the KeyError raised on a node element classed "edge". */
  function EdgesOf(elements: seq<Element>): Result<seq<EdgeEnds>>
  {
    if |elements| == 0 then Ok([])
    else
      var e := elements[|elements| - 1];
      match EdgesOf(elements[..|elements| - 1])
      case Err(f) => Err(f)
      case Ok(ends) =>
        if e.Classes() != "edge" then Ok(ends)
        else if e.EdgeData? then Ok(ends + [EdgeEnds(e.source, e.target)])
        else Err(KeyError)
  }

  /** Python's `journal_id in edge` on an `(source, target)` pair. */
  predicate Touches(ends: EdgeEnds, id: string)
  {
    id == ends.source || id == ends.target
  }

  /** What `count_references` counts: the edges touching the id. */
  function CountOf(id: string, ends: seq<EdgeEnds>): (n: nat)
    ensures n <= |ends|
    ensures n == 0 <==> forall i :: 0 <= i < |ends| ==> !Touches(ends[i], id)
  {
    if |ends| == 0 then 0
    else
      var n := CountOf(id, ends[..|ends| - 1]);
      assert forall i :: 0 <= i < |ends| - 1 ==> ends[i] == ends[..|ends| - 1][i];
      n + (if Touches(ends[|ends| - 1], id) then 1 else 0)
  }

  /** `b` is what the loop of `journal_analytic` settles on: no journal has
      more references; with none above 0 it is the first journal; otherwise
      it is the first journal, in element order, reaching the maximum. */
  predicate IsFirstMaximum(journals: seq<Journal>, ends: seq<EdgeEnds>, b: Best)
  {
    && (forall k :: 0 <= k < |journals| ==> CountOf(journals[k].id, ends) <= b.references)
    && (b.references == 0 ==> |journals| > 0 && b.journal == journals[0])
    && (b.references > 0 ==>
          exists k :: 0 <= k < |journals| && journals[k] == b.journal && CountOf(journals[k].id, ends) == b.references &&
            forall k' :: 0 <= k' < k ==> CountOf(journals[k'].id, ends) < b.references)
  }

  /** The description above leaves exactly one answer. */
  lemma FirstMaximumUnique(journals: seq<Journal>, ends: seq<EdgeEnds>, b: Best, c: Best)
    requires IsFirstMaximum(journals, ends, b) && IsFirstMaximum(journals, ends, c)
    ensures b == c
  {
    if b.references > 0 {
      var k :| 0 <= k < |journals| && journals[k] == b.journal && CountOf(journals[k].id, ends) == b.references &&
        forall k' :: 0 <= k' < k ==> CountOf(journals[k'].id, ends) < b.references;
      var m :| 0 <= m < |journals| && journals[m] == c.journal && CountOf(journals[m].id, ends) == c.references &&
        forall k' :: 0 <= k' < m ==> CountOf(journals[k'].id, ends) < c.references;
      assert k == m;
    }
  }

  /** `get_journals`. */
  method GetJournals(elements: seq<Element>) returns (journals: seq<Journal>)
    ensures journals == JournalsOf(elements)
  {
    journals := [];
    for i := 0 to |elements|
      invariant journals == JournalsOf(elements[..i])
    {
      assert elements[..i + 1][..i] == elements[..i];
      var data := elements[i];
      if data.Classes() == "journal" {
        journals := journals + [Journal(data.id, data.caption)];
      }
    }
    assert elements[..|elements|] == elements;
  }

  /** `get_edges`. */
  method GetEdges(elements: seq<Element>) returns (r: Result<seq<EdgeEnds>>)
    ensures r == EdgesOf(elements)
  {
    var edges := [];
    for i := 0 to |elements|
      invariant EdgesOf(elements[..i]) == Ok(edges)
    {
      assert elements[..i + 1][..i] == elements[..i];
      var data := elements[i];
      if data.Classes() == "edge" {
        if !data.EdgeData? {
          forall j | i < j <= |elements| ensures EdgesOf(elements[..j]) == Err(KeyError) {
            ErrPersists(elements, i + 1, j);
          }
          assert elements[..|elements|] == elements;
          return Err(KeyError);
        }
        edges := edges + [EdgeEnds(data.source, data.target)];
      }
    }
    assert elements[..|elements|] == elements;
    r := Ok(edges);
  }

  /** Once `get_edges` has raised, later elements do not matter. */
  lemma {:induction false} ErrPersists(elements: seq<Element>, i: nat, j: nat)
    requires i <= j <= |elements| && EdgesOf(elements[..i]) == Err(KeyError)
    ensures EdgesOf(elements[..j]) == Err(KeyError)
    decreases j - i
  {
    if i < j {
      assert elements[..i + 1][..i] == elements[..i];
      ErrPersists(elements, i + 1, j);
    }
  }

  /** `count_references`. */
  method CountReferences(journalId: string, edges: seq<EdgeEnds>) returns (cpt: nat)
    ensures cpt == CountOf(journalId, edges)
  {
    cpt := 0;
    for i := 0 to |edges|
      invariant cpt == CountOf(journalId, edges[..i])
    {
      assert edges[..i + 1][..i] == edges[..i];
      if journalId == edges[i].source || journalId == edges[i].target {
        cpt := cpt + 1;
      }
    }
    assert edges[..|edges|] == edges;
  }

  /** The loop of `journal_analytic` after the first `i` journals: `b` holds
      the running maximum and its journal, found at position `best`. */
  predicate Scanned(journals: seq<Journal>, ends: seq<EdgeEnds>, i: nat, b: Best, best: nat)
    requires 0 < |journals| && i <= |journals|
  {
    && (forall k :: 0 <= k < i ==> CountOf(journals[k].id, ends) <= b.references)
    && (b.references == 0 ==> b.journal == journals[0])
    && (b.references > 0 ==>
          best < i && journals[best] == b.journal && CountOf(journals[best].id, ends) == b.references &&
          forall k :: 0 <= k < best ==> CountOf(journals[k].id, ends) < b.references)
  }

  /** One pass of the loop: a strictly greater count takes over, any other
      count leaves the running maximum alone. */
  lemma ScanStep(journals: seq<Journal>, ends: seq<EdgeEnds>, i: nat, b: Best, best: nat)
    requires i < |journals| && Scanned(journals, ends, i, b, best)
    ensures var n := CountOf(journals[i].id, ends);
      if n > b.references then Scanned(journals, ends, i + 1, Best(journals[i], n), i)
      else Scanned(journals, ends, i + 1, b, best)
  {
  }

  /** After the whole loop, the running maximum is the first maximum. */
  lemma ScanDone(journals: seq<Journal>, ends: seq<EdgeEnds>, b: Best, best: nat)
    requires 0 < |journals| && Scanned(journals, ends, |journals|, b, best)
    ensures IsFirstMaximum(journals, ends, b)
  {
  }

  /** `journal_analytic`: keep the first journal whose count is strictly
      greater than every count before it, starting from `journals[0]` and 0.
      The KeyError of `get_edges` comes first, then the IndexError of
      `journals[0]` on an element list without journals. */
  method JournalAnalytic(elements: seq<Element>) returns (r: Result<Best>)
    ensures EdgesOf(elements).Err? ==> r == Err(KeyError)
    ensures EdgesOf(elements).Ok? && JournalsOf(elements) == [] ==> r == Err(IndexError)
    ensures EdgesOf(elements).Ok? && JournalsOf(elements) != [] ==>
      r.Ok? && IsFirstMaximum(JournalsOf(elements), EdgesOf(elements).value, r.value)
  {
    var journals := GetJournals(elements);
    var edgesOrError := GetEdges(elements);
    if edgesOrError.Err? {
      return Err(KeyError);
    }
    var edges := edgesOrError.value;
    if |journals| == 0 {
      return Err(IndexError);
    }
    var maxRef := 0;
    var maxRefJournal := journals[0];
    ghost var best := 0;
    for i := 0 to |journals|
      invariant Scanned(journals, edges, i, Best(maxRefJournal, maxRef), best)
    {
      var nbReferences := CountReferences(journals[i].id, edges);
      ScanStep(journals, edges, i, Best(maxRefJournal, maxRef), best);
      if nbReferences > maxRef {
        maxRef := nbReferences;
        maxRefJournal := journals[i];
        best := i;
      }
    }
    ScanDone(journals, edges, Best(maxRefJournal, maxRef), best);
    r := Ok(Best(maxRefJournal, maxRef));
  }

  /** An edge touching the node id, as `count_references` sees it on the graph. */
  predicate EdgeTouches(e: Edge, id: nat)
  {
    e.src == id || e.dest == id
  }

  /** The number of edges of the graph touching the node id. */
  function Touching(id: nat, edges: seq<Edge>): nat
  {
    if |edges| == 0 then 0
    else Touching(id, edges[..|edges| - 1]) + (if EdgeTouches(edges[|edges| - 1], id) then 1 else 0)
  }

  /** The number of edges of the graph entering the node id. */
  function Incoming(id: nat, edges: seq<Edge>): nat
  {
    if |edges| == 0 then 0
    else Incoming(id, edges[..|edges| - 1]) + (if edges[|edges| - 1].dest == id then 1 else 0)
  }

  /** The journal entry a journal node exports. */
  function AsJournal(n: Node): Journal
  {
    Journal(NatToString(n.id), n.name)
  }

  /** The journal entries of the journal nodes, in node order. */
  function JournalEntries(nodes: seq<Node>): seq<Journal>
  {
    if |nodes| == 0 then []
    else
      var n := nodes[|nodes| - 1];
      JournalEntries(nodes[..|nodes| - 1]) + (if n.kind == "journal" then [AsJournal(n)] else [])
  }

  /** The edge entries of the graph's edges, in edge order. */
  function EndsOf(edges: seq<Edge>): (r: seq<EdgeEnds>)
    ensures |r| == |edges|
    ensures forall j :: 0 <= j < |edges| ==> r[j] == EdgeEnds(NatToString(edges[j].src), NatToString(edges[j].dest))
  {
    if |edges| == 0 then [] else EndsOf(edges[..|edges| - 1]) + [EdgeEnds(NatToString(edges[|edges| - 1].src), NatToString(edges[|edges| - 1].dest))]
  }

  /** `get_journals` splits over concatenation. */
  lemma {:induction false} JournalsOfAppend(a: seq<Element>, b: seq<Element>)
    ensures JournalsOf(a + b) == JournalsOf(a) + JournalsOf(b)
    decreases |b|
  {
    if |b| > 0 {
      assert (a + b)[..|a + b| - 1] == a + b[..|b| - 1];
      JournalsOfAppend(a, b[..|b| - 1]);
    } else {
      assert a + b == a;
    }
  }

  /** On exported nodes, `get_journals` gives the journal nodes' entries. */
  lemma {:induction false} JournalsOfNodes(nodes: seq<Node>)
    ensures JournalsOf(NodeElements(nodes)) == JournalEntries(nodes)
  {
    if |nodes| > 0 {
      var front := nodes[..|nodes| - 1];
      JournalsOfNodes(front);
      assert NodeElements(nodes)[..|nodes| - 1] == NodeElements(front);
    }
  }

  /** On exported edges, `get_journals` finds nothing. */
  lemma {:induction false} JournalsOfEdges(edges: seq<Edge>)
    ensures JournalsOf(EdgeElements(edges)) == []
  {
    if |edges| > 0 {
      JournalsOfEdges(edges[..|edges| - 1]);
      assert EdgeElements(edges)[..|edges| - 1] == EdgeElements(edges[..|edges| - 1]);
    }
  }

  /** On exported nodes none of type "edge", `get_edges` finds nothing and
      does not raise. */
  lemma {:induction false} EdgesOfNodes(nodes: seq<Node>)
    requires forall i :: 0 <= i < |nodes| ==> nodes[i].kind != "edge"
    ensures EdgesOf(NodeElements(nodes)) == Ok([])
  {
    if |nodes| > 0 {
      EdgesOfNodes(nodes[..|nodes| - 1]);
      assert NodeElements(nodes)[..|nodes| - 1] == NodeElements(nodes[..|nodes| - 1]);
    }
  }

  /** After error-free node elements, `get_edges` reads exactly the edge
      elements' endpoints. */
  lemma {:induction false} EdgesOfAppendEdges(prefix: seq<Element>, edges: seq<Edge>)
    requires EdgesOf(prefix) == Ok([])
    ensures EdgesOf(prefix + EdgeElements(edges)) == Ok(EndsOf(edges))
    decreases |edges|
  {
    if |edges| == 0 {
      assert prefix + EdgeElements(edges) == prefix;
    } else {
      var front := edges[..|edges| - 1];
      var last := edges[|edges| - 1];
      EdgesOfAppendEdges(prefix, front);
      assert EdgeElements(edges) == EdgeElements(front) + [EdgeElement(last)];
      AppendOne(prefix, EdgeElements(front), EdgeElement(last));
      EdgesOfSnoc(prefix + EdgeElements(front), EndsOf(front), NatToString(last.src), NatToString(last.dest));
      assert EndsOf(edges) == EndsOf(front) + [EdgeEnds(NatToString(last.src), NatToString(last.dest))];
    }
  }

  /** One more edge element adds its endpoints to what `get_edges` reads. */
  lemma EdgesOfSnoc(xs: seq<Element>, ends: seq<EdgeEnds>, source: string, target: string)
    requires EdgesOf(xs) == Ok(ends)
    ensures EdgesOf(xs + [EdgeData(source, target)]) == Ok(ends + [EdgeEnds(source, target)])
  {
    assert (xs + [EdgeData(source, target)])[..|xs|] == xs;
  }

  /** Comparing printed ids is comparing ids, so `count_references` on the
      exported edges counts the graph's edges touching the node. */
  lemma {:induction false} CountOfEnds(id: nat, edges: seq<Edge>)
    ensures CountOf(NatToString(id), EndsOf(edges)) == Touching(id, edges)
  {
    if |edges| > 0 {
      var front := edges[..|edges| - 1];
      CountOfEnds(id, front);
      assert EndsOf(edges)[..|edges| - 1] == EndsOf(front);
      var e := edges[|edges| - 1];
      if NatToString(id) == NatToString(e.src) {
        NatToStringInjective(id, e.src);
      }
      if NatToString(id) == NatToString(e.dest) {
        NatToStringInjective(id, e.dest);
      }
    }
  }

  /** The analytics read back the graph the export wrote: the journals are
      the journal nodes in node order, `get_edges` raises nothing and yields
      every edge, and each journal's count is the number of graph edges
      touching its node. */
  lemma AnalyticsSeeTheGraph(nodes: seq<Node>, edges: seq<Edge>)
    requires forall i :: 0 <= i < |nodes| ==> nodes[i].kind != "edge"
    ensures JournalsOf(NodeElements(nodes) + EdgeElements(edges)) == JournalEntries(nodes)
    ensures EdgesOf(NodeElements(nodes) + EdgeElements(edges)) == Ok(EndsOf(edges))
    ensures forall n :: n in nodes ==> CountOf(AsJournal(n).id, EndsOf(edges)) == Touching(n.id, edges)
  {
    JournalsOfAppend(NodeElements(nodes), EdgeElements(edges));
    JournalsOfNodes(nodes);
    JournalsOfEdges(edges);
    EdgesOfNodes(nodes);
    EdgesOfAppendEdges(NodeElements(nodes), edges);
    forall n | n in nodes ensures CountOf(AsJournal(n).id, EndsOf(edges)) == Touching(n.id, edges) {
      CountOfEnds(n.id, edges);
    }
  }

  /** In a graph the builder produces, edges leave drug nodes only, so a
      journal's count is the number of edges entering it. */
  lemma {:induction false} JournalsAreTargets(nodes: seq<Node>, edges: seq<Edge>, j: nat)
    requires WellFormed(nodes, edges)
    requires j < |nodes| && nodes[j].kind == "journal"
    ensures Touching(j, edges) == Incoming(j, edges)
  {
    if |edges| > 0 {
      var front := edges[..|edges| - 1];
      assert WellFormed(nodes, front);
      JournalsAreTargets(nodes, front, j);
      assert edges[|edges| - 1].src != j;
    }
  }
}
