/** Examples of the built graph: one drug named in one trial, and two
    drugs, each named in one of two trials published in the same journal,
    that share that journal's node. */
module Scenarios {
  import opened GraphStore
  import opened ReferenceMatcher
  import opened Text
  import opened GraphBuilder
  import opened Analytics

  /** The trial references of a drug that only the first of two trials mentions. */
  lemma FirstOfTwoTrials(name: string, t1: Record, t2: Record)
    requires MentionsDrug(name, t1) && !MentionsDrug(name, t2)
    ensures References(name, [t1, t2], "trial") == [Ref("trial", t1.title, t1.date), Ref("journal", t1.journal, t1.date)]
  {
    assert [t1, t2][..1] == [t1];
    assert [t1][..0] == [];
  }

  /** The trial references of a drug that only the second of two trials mentions. */
  lemma SecondOfTwoTrials(name: string, t1: Record, t2: Record)
    requires !MentionsDrug(name, t1) && MentionsDrug(name, t2)
    ensures References(name, [t1, t2], "trial") == [Ref("trial", t2.title, t2.date), Ref("journal", t2.journal, t2.date)]
  {
    assert [t1, t2][..1] == [t1];
    assert [t1][..0] == [];
  }

  /** The graph after the first drug of the shared-journal scenario: drug 0,
      trial 1, journal 2, and the edges 0→1 and 0→2. */
  function AfterFirstDrug(a: Drug, t1: Record): Progress
  {
    Progress(
      [Node(0, "drug", a.name), Node(1, "trial", t1.title), Node(2, "journal", t1.journal)],
      [Edge(0, 0, 1, t1.date), Edge(1, 0, 2, t1.date)], 3, 2)
  }

  /** The graph after both drugs of the shared-journal scenario. */
  function AfterSecondDrug(a: Drug, b: Drug, t1: Record, t2: Record): Progress
  {
    Progress(
      [Node(0, "drug", a.name), Node(1, "trial", t1.title), Node(2, "journal", t1.journal),
       Node(3, "drug", b.name), Node(4, "trial", t2.title)],
      [Edge(0, 0, 1, t1.date), Edge(1, 0, 2, t1.date), Edge(2, 3, 4, t2.date), Edge(3, 3, 2, t2.date)], 5, 4)
  }

  /** The first drug's two references: its trial and the journal are new
      nodes 1 and 2, each with an edge from drug 0. */
  lemma FirstDrugReferences(a: Drug, t1: Record)
    ensures ManageRefs(Progress([Node(0, "drug", a.name)], [], 1, 0), 0,
      [Ref("trial", t1.title, t1.date), Ref("journal", t1.journal, t1.date)]) == AfterFirstDrug(a, t1)
  {
    var refs := [Ref("trial", t1.title, t1.date), Ref("journal", t1.journal, t1.date)];
    var withDrug := Progress([Node(0, "drug", a.name)], [], 1, 0);
    var one := Progress([Node(0, "drug", a.name), Node(1, "trial", t1.title)], [Edge(0, 0, 1, t1.date)], 2, 1);
    assert ManageRef(withDrug, 0, refs[0]) == one by {
      assert !HasKey(withDrug.nodes[0], "trial", t1.title);
    }
    assert ManageRef(one, 0, refs[1]) == AfterFirstDrug(a, t1) by {
      assert !HasKey(one.nodes[0], "journal", t1.journal) && !HasKey(one.nodes[1], "journal", t1.journal);
      assert !LinksWith(one.edges[0], 0, 2, t1.date);
    }
    assert refs[..1][..0] == [];
    assert ManageRefs(withDrug, 0, refs[..1]) == one;
  }

  /** The first drug of the scenario yields `AfterFirstDrug`. */
  lemma FirstDrugOfTwo(a: Drug, t1: Record, t2: Record)
    requires MentionsDrug(a.name, t1) && !MentionsDrug(a.name, t2)
    ensures ProcessDrug(Start, a, [t1, t2], []) == AfterFirstDrug(a, t1)
  {
    FirstOfTwoTrials(a.name, t1, t2);
    FirstDrugReferences(a, t1);
    var withDrug := Progress([Node(0, "drug", a.name)], [], 1, 0);
    assert Start.nodes + [Node(Start.nextNodeId, "drug", a.name)] == withDrug.nodes;
    assert References(a.name, [], "pubmed") == [];
    ProcessDrugCreates(Start, a, [t1, t2], [], withDrug, AfterFirstDrug(a, t1), AfterFirstDrug(a, t1));
  }

  /** The second drug's trial reference: trial 4 is a new node with an edge
      from drug 3. */
  lemma SecondDrugTrial(a: Drug, b: Drug, t1: Record, t2: Record)
    requires t1.title != t2.title
    ensures ManageRef(Progress(AfterFirstDrug(a, t1).nodes + [Node(3, "drug", b.name)], AfterFirstDrug(a, t1).edges, 4, 2),
      3, Ref("trial", t2.title, t2.date)) ==
      Progress(AfterFirstDrug(a, t1).nodes + [Node(3, "drug", b.name), Node(4, "trial", t2.title)],
        AfterFirstDrug(a, t1).edges + [Edge(2, 3, 4, t2.date)], 5, 3)
  {
    var p := AfterFirstDrug(a, t1);
    var nodes := p.nodes + [Node(3, "drug", b.name)];
    assert !HasKey(nodes[1], "trial", t2.title);
    assert !NodeAlreadyExists("trial", t2.title, nodes);
    assert !LinksWith(p.edges[0], 3, 4, t2.date) && !LinksWith(p.edges[1], 3, 4, t2.date);
    assert nodes + [Node(4, "trial", t2.title)] == p.nodes + [Node(3, "drug", b.name), Node(4, "trial", t2.title)];
  }

  /** `get_node_id` on a list whose first two nodes do not both mention
      "journal" and the title, and whose third node does, gives the third
      node's id. */
  lemma JournalFoundAtTwo(nodes: seq<Node>, j: string)
    requires |nodes| >= 3
    requires !MentionsBoth(nodes[0], "journal", j) && !MentionsBoth(nodes[1], "journal", j)
    requires MentionsBoth(nodes[2], "journal", j)
    ensures GetNodeId("journal", j, nodes) == nodes[2].id
  {
    assert nodes[1..][1..][0] == nodes[2];
    assert nodes[1..][0] == nodes[1];
  }

  /** The second drug's journal reference: the journal node exists, and
      `get_node_id` finds it at 2, since with a journal title that is none of
      the three type names neither node 0 nor node 1 mentions both "journal"
      and the title. The edge 3→2 is new. */
  lemma SecondDrugJournal(a: Drug, b: Drug, t1: Record, t2: Record)
    requires t1.journal == t2.journal
    requires t1.journal != "drug" && t1.journal != "trial" && t1.journal != "journal"
    ensures ManageRef(
      Progress(AfterFirstDrug(a, t1).nodes + [Node(3, "drug", b.name), Node(4, "trial", t2.title)],
        AfterFirstDrug(a, t1).edges + [Edge(2, 3, 4, t2.date)], 5, 3),
      3, Ref("journal", t2.journal, t2.date)) == AfterSecondDrug(a, b, t1, t2)
  {
    var j := t1.journal;
    var nodes := AfterFirstDrug(a, t1).nodes + [Node(3, "drug", b.name), Node(4, "trial", t2.title)];
    var edges := AfterFirstDrug(a, t1).edges + [Edge(2, 3, 4, t2.date)];
    assert NodeAlreadyExists("journal", j, nodes) by {
      assert HasKey(nodes[2], "journal", j);
    }
    JournalFoundAtTwo(nodes, j);
    assert !EdgeAlreadyExists(3, 2, t2.date, edges) by {
      assert !LinksWith(edges[0], 3, 2, t2.date) && !LinksWith(edges[1], 3, 2, t2.date) && !LinksWith(edges[2], 3, 2, t2.date);
    }
    ExistingNodeNewEdge(Progress(nodes, edges, 5, 3), 3, Ref("journal", t2.journal, t2.date), 2);
    SecondDrugLists(a, b, t1, t2);
  }

  /** The lists of `AfterSecondDrug` as the second drug's steps append them. */
  lemma SecondDrugLists(a: Drug, b: Drug, t1: Record, t2: Record)
    ensures AfterFirstDrug(a, t1).nodes + [Node(3, "drug", b.name), Node(4, "trial", t2.title)] == AfterSecondDrug(a, b, t1, t2).nodes
    ensures AfterFirstDrug(a, t1).edges + [Edge(2, 3, 4, t2.date)] + [Edge(3, 3, 2, t2.date)] == AfterSecondDrug(a, b, t1, t2).edges
  {
  }

  /** A reference whose node exists and resolves to `refId`, with no edge yet
      from the drug to it on that date: only that edge is appended. */
  lemma ExistingNodeNewEdge(p: Progress, drugId: nat, r: Ref, refId: nat)
    requires NodeAlreadyExists(r.kind, r.name, p.nodes)
    requires GetNodeId(r.kind, r.name, p.nodes) == refId
    requires !EdgeAlreadyExists(drugId, refId, r.date, p.edges)
    ensures ManageRef(p, drugId, r) ==
      Progress(p.nodes, p.edges + [Edge(p.nextEdgeId, drugId, refId, r.date)], p.nextNodeId, p.nextEdgeId + 1)
  {
  }

  /** The second drug of the scenario yields `AfterSecondDrug`. */
  lemma SecondDrugOfTwo(a: Drug, b: Drug, t1: Record, t2: Record)
    requires a.name != b.name && t1.title != t2.title && t1.journal == t2.journal
    requires t1.journal != "drug" && t1.journal != "trial" && t1.journal != "journal"
    requires !MentionsDrug(b.name, t1) && MentionsDrug(b.name, t2)
    ensures ProcessDrug(AfterFirstDrug(a, t1), b, [t1, t2], []) == AfterSecondDrug(a, b, t1, t2)
  {
    var p := AfterFirstDrug(a, t1);
    SecondOfTwoTrials(b.name, t1, t2);
    var refs := [Ref("trial", t2.title, t2.date), Ref("journal", t2.journal, t2.date)];
    assert !NodeAlreadyExists("drug", b.name, p.nodes) by {
      assert !HasKey(p.nodes[0], "drug", b.name);
    }
    var withDrug := Progress(p.nodes + [Node(3, "drug", b.name)], p.edges, 4, 2);
    SecondDrugTrial(a, b, t1, t2);
    SecondDrugJournal(a, b, t1, t2);
    assert refs[..1][..0] == [];
    assert ManageRefs(withDrug, 3, refs[..1]) == ManageRef(withDrug, 3, refs[0]);
    assert ManageRefs(withDrug, 3, refs) == AfterSecondDrug(a, b, t1, t2);
    assert References(b.name, [], "pubmed") == [];
    ProcessDrugCreates(p, b, [t1, t2], [], withDrug, AfterSecondDrug(a, b, t1, t2), AfterSecondDrug(a, b, t1, t2));
  }

  /** Two drugs, each named in the title of one of two trials published in
      the same journal, with no publications: the journal node is created
      once, by the first drug, and the second drug's edge to the journal
      reuses it, so node 2 has an edge from each drug (0→2 and 3→2). */
  lemma SharedJournalScenario(a: Drug, b: Drug, t1: Record, t2: Record)
    requires MentionsDrug(a.name, t1) && !MentionsDrug(a.name, t2)
    requires !MentionsDrug(b.name, t1) && MentionsDrug(b.name, t2)
    requires t1.journal == t2.journal
    requires t1.journal != "drug" && t1.journal != "trial" && t1.journal != "journal"
    ensures Build([a, b], [t1, t2], []) == AfterSecondDrug(a, b, t1, t2)
  {
    assert a.name != b.name;
    assert t1.title != t2.title;
    FirstDrugOfTwo(a, t1, t2);
    SecondDrugOfTwo(a, b, t1, t2);
    assert [a, b][..1] == [a] && [a][..0] == [];
    assert BuildFrom(Start, [a], [t1, t2], []) == AfterFirstDrug(a, t1);
  }

  /** In the shared-journal graph, node 2 is the only journal node. */
  lemma SharedJournalEntries(a: Drug, b: Drug, t1: Record, t2: Record)
    ensures JournalEntries(AfterSecondDrug(a, b, t1, t2).nodes) == [Journal(NatToString(2), t1.journal)]
  {
    var ns := AfterSecondDrug(a, b, t1, t2).nodes;
    assert ns[..1][..0] == [] && ns[..2][..1] == ns[..1] && ns[..3][..2] == ns[..2] && ns[..4][..3] == ns[..3];
    assert JournalEntries(ns[..1]) == [];
    assert JournalEntries(ns[..2]) == [];
    assert JournalEntries(ns[..3]) == [AsJournal(ns[2])];
    assert JournalEntries(ns[..4]) == [AsJournal(ns[2])];
    assert ns[..4] == ns[..|ns| - 1];
  }

  /** In the shared-journal graph, two edges touch node 2, and both enter it. */
  lemma SharedJournalEdges(a: Drug, b: Drug, t1: Record, t2: Record)
    ensures Incoming(2, AfterSecondDrug(a, b, t1, t2).edges) == 2
    ensures Touching(2, AfterSecondDrug(a, b, t1, t2).edges) == 2
  {
    var es := AfterSecondDrug(a, b, t1, t2).edges;
    assert es[..1][..0] == [] && es[..2][..1] == es[..1] && es[..3][..2] == es[..2] && es[..3] == es[..|es| - 1];
    assert Incoming(2, es[..1]) == 0 && Touching(2, es[..1]) == 0;
    assert Incoming(2, es[..2]) == 1 && Touching(2, es[..2]) == 1;
    assert Incoming(2, es[..3]) == 1 && Touching(2, es[..3]) == 1;
  }

  /** The shared-journal scenario seen by the analytics: the journal node 2
      is the only journal, two edges enter it (one from each drug), so
      `journal_analytic` answers that journal with 2 references. */
  lemma SharedJournalCounted(a: Drug, b: Drug, t1: Record, t2: Record)
    requires MentionsDrug(a.name, t1) && !MentionsDrug(a.name, t2)
    requires !MentionsDrug(b.name, t1) && MentionsDrug(b.name, t2)
    requires t1.journal == t2.journal
    requires t1.journal != "drug" && t1.journal != "trial" && t1.journal != "journal"
    ensures var g := Build([a, b], [t1, t2], []);
      && JournalEntries(g.nodes) == [Journal(NatToString(2), t1.journal)]
      && Incoming(2, g.edges) == 2
      && IsFirstMaximum(JournalEntries(g.nodes), EndsOf(g.edges), Best(Journal(NatToString(2), t1.journal), 2))
  {
    SharedJournalScenario(a, b, t1, t2);
    SharedJournalEntries(a, b, t1, t2);
    SharedJournalEdges(a, b, t1, t2);
    var g := AfterSecondDrug(a, b, t1, t2);
    CountOfEnds(2, g.edges);
    var js := [Journal(NatToString(2), t1.journal)];
    assert CountOf(js[0].id, EndsOf(g.edges)) == 2;
  }

  /** A single drug whose name occurs in the title of a single trial, with no
      publications: the drug, trial and journal nodes get ids 0, 1, 2 and two
      edges dated like the trial run from the drug to the other two. */
  lemma SingleTrialScenario(d: Drug, t: Record)
    requires MentionsDrug(d.name, t)
    ensures Build([d], [t], []) == Progress(
      [Node(0, "drug", d.name), Node(1, "trial", t.title), Node(2, "journal", t.journal)],
      [Edge(0, 0, 1, t.date), Edge(1, 0, 2, t.date)], 3, 2)
  {
    assert References(d.name, [t], "trial") == [Ref("trial", t.title, t.date), Ref("journal", t.journal, t.date)] by {
      assert [t][..0] == [];
    }
    FirstDrugReferences(d, t);
    var withDrug := Progress([Node(0, "drug", d.name)], [], 1, 0);
    assert Start.nodes + [Node(Start.nextNodeId, "drug", d.name)] == withDrug.nodes;
    assert References(d.name, [], "pubmed") == [];
    ProcessDrugCreates(Start, d, [t], [], withDrug, AfterFirstDrug(d, t), AfterFirstDrug(d, t));
    assert [d][..0] == [];
    assert BuildFrom(Start, [d][..0], [t], []) == Start;
  }

  /** In the single-trial graph, node 2 is the only journal node. */
  lemma SingleTrialEntries(d: Drug, t: Record)
    ensures JournalEntries([Node(0, "drug", d.name), Node(1, "trial", t.title), Node(2, "journal", t.journal)])
      == [Journal(NatToString(2), t.journal)]
  {
    var ns := [Node(0, "drug", d.name), Node(1, "trial", t.title), Node(2, "journal", t.journal)];
    assert ns[..1][..0] == [] && ns[..2][..1] == ns[..1] && ns[..2] == ns[..|ns| - 1];
    assert JournalEntries(ns[..1]) == [];
    assert JournalEntries(ns[..2]) == [];
  }

  /** In the single-trial graph, one edge touches node 2, and it enters it. */
  lemma SingleTrialEdges(t: Record)
    ensures Incoming(2, [Edge(0, 0, 1, t.date), Edge(1, 0, 2, t.date)]) == 1
    ensures Touching(2, [Edge(0, 0, 1, t.date), Edge(1, 0, 2, t.date)]) == 1
  {
    var es := [Edge(0, 0, 1, t.date), Edge(1, 0, 2, t.date)];
    var first := [Edge(0, 0, 1, t.date)];
    assert es[..1] == first && es[..|es| - 1] == first;
    assert first[..0] == [];
    assert Incoming(2, first) == 0 && Touching(2, first) == 0;
  }

  /** The single-trial graph seen by the analytics: its journal node 2 is
      the only journal, one edge enters it, so `journal_analytic` answers
      that journal with 1 reference. */
  lemma SingleTrialCounted(d: Drug, t: Record)
    requires MentionsDrug(d.name, t)
    ensures var g := Build([d], [t], []);
      && JournalEntries(g.nodes) == [Journal(NatToString(2), t.journal)]
      && Incoming(2, g.edges) == 1
      && IsFirstMaximum(JournalEntries(g.nodes), EndsOf(g.edges), Best(Journal(NatToString(2), t.journal), 1))
  {
    SingleTrialScenario(d, t);
    SingleTrialEntries(d, t);
    SingleTrialEdges(t);
    var es := [Edge(0, 0, 1, t.date), Edge(1, 0, 2, t.date)];
    CountOfEnds(2, es);
    var js := [Journal(NatToString(2), t.journal)];
    assert CountOf(js[0].id, EndsOf(es)) == 1;
  }
}
