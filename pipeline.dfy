/** The script part of main.py that links the pieces, without its file
    input and output: build the graph, export its elements, and run the
    journal analytics on them (the JSON file written and read back in
    between is taken to return the same elements). */
module Pipeline {
  import opened GraphStore
  import opened ReferenceMatcher
  import opened GraphBuilder
  import opened Export
  import opened Analytics

  /** Every journal entry comes from a journal node. */
  lemma {:induction false} EntriesAreJournalNodes(nodes: seq<Node>, x: Journal)
    requires x in JournalEntries(nodes)
    ensures exists j :: 0 <= j < |nodes| && nodes[j].kind == "journal" && AsJournal(nodes[j]) == x
  {
    var front := nodes[..|nodes| - 1];
    if x in JournalEntries(front) {
      EntriesAreJournalNodes(front, x);
      var j :| 0 <= j < |front| && front[j].kind == "journal" && AsJournal(front[j]) == x;
      assert nodes[j] == front[j];
    } else {
      assert nodes[|nodes| - 1].kind == "journal" && AsJournal(nodes[|nodes| - 1]) == x;
    }
  }

  /** Build the graph, export it and run `journal_analytic`. The analytics
      never raise the KeyError; they raise the IndexError exactly when no
      journal node was built; otherwise the answer is the first journal node
      with the most references, a journal's references being the edges that
      enter its node. */
  method BuildAndAnalyze(drugs: seq<Drug>, trials: seq<Record>, pubmed: seq<Record>)
    returns (r: Result<Best>)
    ensures var b := Build(drugs, trials, pubmed);
      && (JournalEntries(b.nodes) == [] ==> r == Err(IndexError))
      && (JournalEntries(b.nodes) != [] ==> r.Ok? && IsFirstMaximum(JournalEntries(b.nodes), EndsOf(b.edges), r.value))
    ensures r.Ok? ==> var b := Build(drugs, trials, pubmed);
      exists j :: 0 <= j < |b.nodes| && b.nodes[j].kind == "journal" &&
        AsJournal(b.nodes[j]) == r.value.journal && Incoming(j, b.edges) == r.value.references
  {
    var nodes, edges := ReadRelationships(drugs, trials, pubmed);
    var elements := ConstructJsonData(nodes, edges);
    assert forall i :: 0 <= i < |nodes| ==> nodes[i].kind != "edge" by {
      assert forall i :: 0 <= i < |nodes| ==> KnownKind(nodes[i].kind);
    }
    AnalyticsSeeTheGraph(nodes, edges);
    r := JournalAnalytic(elements);
    if r.Ok? {
      var js := JournalEntries(nodes);
      var x := r.value.journal;
      if r.value.references > 0 {
        var k :| 0 <= k < |js| && js[k] == x && CountOf(js[k].id, EndsOf(edges)) == r.value.references;
        EntriesAreJournalNodes(nodes, x);
      } else {
        EntriesAreJournalNodes(nodes, js[0]);
      }
      var j :| 0 <= j < |nodes| && nodes[j].kind == "journal" && AsJournal(nodes[j]) == x;
      assert nodes[j] in nodes;
      assert CountOf(AsJournal(nodes[j]).id, EndsOf(edges)) == Touching(nodes[j].id, edges);
      JournalsAreTargets(nodes, edges, j);
      if r.value.references == 0 {
        assert CountOf(js[0].id, EndsOf(edges)) <= 0;
      }
    }
  }
}
