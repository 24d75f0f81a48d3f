# Drug reference graph: a Dafny model

This project models the graph core of `main.py`. That core reads a list of drugs, a list of clinical trials and a list of medical publications. A trial or publication is a `[id, title, date, journal]` row. The core builds a graph of typed nodes (drug, trial, pubmed, journal) and dated edges. Each edge runs from a drug to a reference's node: the node just created for it, or else the node that `get_node_id` finds, which is normally the trial, publication or journal that mentions the drug (see the `get_node_id` note below). The core exports the graph as a list of elements. It then names the journal with the most references.

Modules, following the program's components:

- `Text` (`text.dfy`): the Python string operations used. These are `str.lower()` on ASCII, the substring test `p in s`, and `str(n)` for a non-negative integer. `str(n)` is proved injective.
- `GraphStore` (`graph_store.dfy`): node tuples `(id, type, label)` and edge tuples `(id, src, dest, date)`. It has the three linear scans and a `Graph` class. The class holds the two lists that `create_node` and `create_edge` append to in place. `type` and `label` are Dafny keywords, so the node fields are named `kind` and `name`.
- `ReferenceMatcher` (`reference_matcher.dfy`): `check_references`, the case-folded substring match and the pairs of tuples it emits.
- `GraphBuilder` (`graph_builder.dfy`): `manage_references` and `read_relationships`. They are methods over a `Graph` with the two id counters. Each is proved equal to a specification function (`ManageRefs`, `Build`). Lemmas about those functions prove the graph invariants.
- `Export` (`export.dfy`): the element list of `construct_json_data`.
- `Analytics` (`analytics.dfy`): `get_journals`, `get_edges`, `count_references` and `journal_analytic`. Lemmas connect them back to the graph.
- `Pipeline` (`pipeline.dfy`): the script's data flow from `read_relationships` to `journal_analytic`.

The three record lists are parameters, not module-level globals. Only `drug[1]`, the name, is read from a drug row. The JSON file written and read back between export and analytics is taken to hand back the same elements.

Behaviour reproduced as the code has it:

- `get_node_id` uses tuple membership (`type in node and label in node`). It therefore returns the first node whose type or label equals each of the two values. That node is not always the exact `(type, label)` match (`GraphStore.GetNodeIdMayMissExactMatch`). Because the exact match always mentions both values, the lookup never returns -1 after `create_node` has refused a duplicate.
- A drug whose name already labels a drug node is skipped entirely.
- An empty drug name matches every title.
- The analytics count the edges whose source or target is the journal's id. They do not count distinct drugs. A drug that cites one journal on two dates adds two edges to its count. The program's own comments speak of drugs ("the journal that refers to the most of drugs", main.py:234; "nb of references to drugs", main.py:274); this model follows the code.
- `create_node` and `create_edge` return only a boolean; the caller supplies the id.
- With no journal, `journals[0]` raises. This is modelled as `Err(IndexError)`. A node element classed `"edge"` has no `source` key, so `get_edges` raises. This is modelled as `Err(KeyError)`. The builder never produces such a node (`Pipeline.BuildAndAnalyze`).

## Model

| member | source | states |
|---|---|---|
| `Text.Lower` | main.py:159 | reference definition of `s.lower()`: same length, each character lowered on its own (ASCII letters only, see Left out) |
| `Text.Contains` | main.py:159 | `p in s` holds exactly when some position of `s` starts a copy of `p` |
| `Text.EmptyIsContained` | main.py:159 | the empty string is a substring of every string |
| `Text.NatToString` | main.py:200 | `str(n)` is a non-empty run of decimal digits, one digit long exactly when `n < 10` |
| `Text.NatToStringInjective` | main.py:212-213 | distinct ids print as distinct strings |
| `GraphStore.NodeAlreadyExists` | main.py:137-142 | true exactly when some node has that type and that label |
| `GraphStore.EdgeAlreadyExists` | main.py:145-150 | true exactly when some edge has that source, target and date |
| `GraphStore.GetNodeId` | main.py:97-101 | -1 exactly when no node mentions both values among its type and label; otherwise the id of the first node that does |
| `GraphStore.ExistingNodeResolves` | main.py:184-189 | when ids are positions and the pair exists, the lookup gives a position of the list, at or before the exact match, so the -1 branch is unreachable |
| `GraphStore.GetNodeIdMayMissExactMatch` | main.py:99 | a drug node named "journal" listed before a journal node named "drug" captures the lookup of ("journal", "drug") |
| `GraphStore.CreateNodeKeepsUnique` | main.py:111-121 | after `create_node`, no (type, label) pair repeats, the pair is present (so a repeated call appends nothing), and at most one node was added |
| `GraphStore.CreateEdgeKeepsUnique` | main.py:124-134 | after `create_edge`, no (src, dest, date) triple repeats, the triple is present, and at most one edge was added |
| `GraphStore.Graph.constructor` | main.py:64-65 | the store starts with empty node and edge lists |
| `GraphStore.Graph.CreateNode` | main.py:111-121 | returns true exactly when no node has that type and label; then `(id, type, label)` is appended, otherwise the list is unchanged |
| `GraphStore.Graph.CreateEdge` | main.py:124-134 | returns true exactly when no edge has that triple; then `(id, src, dest, date)` is appended, otherwise the list is unchanged |
| `ReferenceMatcher.MentionsDrug` | main.py:159 | reference definition of the test `drug_label.lower() in trial[1].lower()` |
| `ReferenceMatcher.Matching` | main.py:157-159 | the kept records are records of the input that mention the drug, and every input record that mentions it is kept |
| `ReferenceMatcher.MatchingOne` | main.py:157-159 | one record is kept exactly when it mentions the drug, once |
| `ReferenceMatcher.MatchingAppend` | main.py:157-159 | the kept records of a concatenation are the kept records of each part, concatenated: one per matching record, in input order, with no duplicate removed |
| `ReferenceMatcher.References` | main.py:153-163 | twice as many tuples as matching records: for the k-th match, `(type, title, date)` at 2k and `("journal", journal, date)` at 2k+1; every tuple's type is the given one or "journal" |
| `ReferenceMatcher.CheckReferences` | main.py:153-163 | the loop returns exactly the tuples described by `References` |
| `ReferenceMatcher.NoMatchNoReferences` | main.py:157-163 | the result is empty exactly when no record's lowered title contains the lowered drug name |
| `ReferenceMatcher.EmptyNameMatchesAll` | main.py:159 | an empty drug name matches every record, giving two tuples per record |
| `ReferenceMatcher.CaseInsensitiveMatch` | main.py:159-161 | "Aspirin" matches a title starting with "aspirin", and the tuples carry the title and journal verbatim |
| `GraphBuilder.ManageRef` | main.py:177-189 | reference definition of one pass of the `manage_references` loop: create the node and an edge to it, else look the node up and create the edge; each counter advances only on creation |
| `GraphBuilder.ManageRefs` | main.py:167-191 | reference definition of `manage_references`: `ManageRef` over the references in order |
| `GraphBuilder.ProcessDrug` | main.py:70-83 | reference definition of one pass of the drug loop: skip a drug whose node exists, else create it and manage its trial references, then its publication references |
| `GraphBuilder.BuildFrom` | main.py:70-83 | reference definition of the drug loop run over the drugs in order from a given state |
| `GraphBuilder.Build` | main.py:62-94 | reference definition of `read_relationships`: the drug loop from empty lists and both counters at 0 |
| `GraphBuilder.ManageRefStep` | main.py:177-189 | one reference keeps the graph valid, only appends, adds at most one node and one edge, wires any new edge from the drug with the reference's date, and always gives a new node its edge |
| `GraphBuilder.ManageRefsPreserve` | main.py:167-191 | a whole `manage_references` call keeps ids equal to positions, counters equal to lengths, no duplicates and every edge from a drug node to an existing node; it only appends, and every edge it appends leaves the current drug's node |
| `GraphBuilder.ExistsInExtension` | main.py:137-142 | a (type, label) pair present before appending is still present after |
| `GraphBuilder.AddDrugNode` | main.py:75-77 | creating the drug node keeps the graph valid and makes its id a drug node |
| `GraphBuilder.ProcessDrugPreserves` | main.py:70-83 | processing one drug keeps the graph valid, only appends, and leaves a drug node with that name |
| `GraphBuilder.BuildIsValid` | main.py:62-94 | the built graph has ids equal to positions, counters equal to lengths, no repeated node key or edge triple, edges only from drug nodes to nodes of the list, and only the four node types |
| `GraphBuilder.DrugNodePersists` | main.py:75 | once a drug is processed, a drug node with its name exists for the rest of the build |
| `GraphBuilder.DuplicateDrugSkipped` | main.py:75-83 | a drug whose name an earlier drug had adds no node and no edge |
| `Scenarios.SingleTrialScenario` | main.py:62-94 | one drug matching one trial gives nodes 0 drug, 1 trial, 2 journal and edges 0→1 and 0→2 dated like the trial |
| `Scenarios.SharedJournalScenario` | main.py:62-94 | two drugs, each named in only one of two trials from the same journal (a title that is no type name): nodes drug 0, trial 1, journal 2, drug 3, trial 4 and edges 0→1, 0→2, 3→4, 3→2; the second drug reuses journal node 2 |
| `Scenarios.SecondDrugJournal` | main.py:184-189 | in that scenario `get_node_id` finds the journal at node 2 and the edge 3→2 is new |
| `GraphBuilder.ManageReference` | main.py:177-189 | one pass of the loop body leaves the lists and counters described by `ManageRef` for that reference |
| `GraphBuilder.ManageReferences` | main.py:167-191 | the loop leaves the lists and counters described by `ManageRefs` |
| `GraphBuilder.ReadRelationships` | main.py:62-94 | the loop returns the lists described by `Build`, and they are well formed |
| `Export.NodeElement` | main.py:197-207 | reference definition of one node's element: id printed in decimal, type as class, label kept except for trial and publication nodes |
| `Export.EdgeElement` | main.py:209-217 | reference definition of one edge's element: source and target ids printed in decimal |
| `Export.NodeElements` | main.py:197-207 | reference definition of the first loop: one element per node, the i-th being `NodeElement` of the i-th node |
| `Export.EdgeElements` | main.py:209-217 | reference definition of the second loop: one element per edge, the j-th being `EdgeElement` of the j-th edge |
| `Export.ConstructJsonData` | main.py:194-217 | the node elements first, then the edge elements, each in list order |
| `Export.ExportedIdsDistinct` | main.py:200 | when ids are positions, the element at position i has id "i" and no two node elements share an id |
| `Analytics.CountOf` | main.py:275-280 | at most the number of edges, and 0 exactly when no edge has the id as source or target |
| `Analytics.FirstMaximumUnique` | main.py:245-256 | the stated outcome of the loop (maximum count, the first journal to reach it, `journals[0]` when all counts are 0) allows only one answer |
| `Analytics.JournalsOf` | main.py:259-264 | reference definition of `get_journals`: the journal-classed elements in order, as (id, label) |
| `Analytics.EdgesOf` | main.py:267-272 | reference definition of `get_edges`: the edge-classed elements in order, as (source, target), or KeyError at the first node element classed "edge" |
| `Analytics.GetJournals` | main.py:259-264 | the journal-classed elements in order, as (id, label) |
| `Analytics.GetEdges` | main.py:267-272 | the edge-classed elements in order, as (source, target), or the KeyError of a node element classed "edge" |
| `Analytics.ErrPersists` | main.py:267-272 | once `get_edges` raises, later elements do not change the outcome |
| `Analytics.CountReferences` | main.py:275-280 | the loop counts exactly the edges touching the id |
| `Analytics.JournalAnalytic` | main.py:235-256 | KeyError from `get_edges` first, then IndexError without journals; otherwise no journal has a higher count than the answer, with a zero count the answer is `journals[0]`, and otherwise it is the first journal in element order to reach the maximum |
| `Analytics.JournalsOfAppend` | main.py:259-264 | `get_journals` of a concatenation is the concatenation of the results |
| `Analytics.JournalsOfNodes` | main.py:197-207 | on exported nodes, `get_journals` gives the journal nodes' (id, label), in node order |
| `Analytics.JournalsOfEdges` | main.py:209-217 | exported edges contribute no journal |
| `Analytics.EdgesOfNodes` | main.py:267-272 | exported nodes, none of type "edge", give no edge entry and no KeyError |
| `Analytics.EdgesOfAppendEdges` | main.py:209-217 | after such nodes, `get_edges` reads every exported edge's endpoints |
| `Analytics.CountOfEnds` | main.py:278 | the count of a printed id over the exported edges is the number of graph edges touching that node |
| `Analytics.AnalyticsSeeTheGraph` | main.py:235-280 | on an exported graph, the journals are the journal nodes, `get_edges` succeeds with every edge, and each count is the number of edges touching the journal's node |
| `Analytics.JournalsAreTargets` | main.py:179-188 | in a built graph a journal node is never an edge source, so its count is the number of edges entering it |
| `Pipeline.EntriesAreJournalNodes` | main.py:262-263 | every journal entry comes from a journal node |
| `Scenarios.SharedJournalCounted` | main.py:235-280 | in that scenario the only journal entry is node 2, two edges enter it, and the analytics' answer is that journal with 2 references |
| `Scenarios.SingleTrialCounted` | main.py:235-280 | in the single-trial graph the only journal entry is node 2, one edge enters it, and the analytics' answer is that journal with 1 reference |
| `Pipeline.BuildAndAnalyze` | main.py:298-309 | building, exporting and analysing never raises KeyError; it raises IndexError exactly when no journal node exists; otherwise it returns the first journal node with the most incoming edges, and that count |

## Left out

- `read_csv_file`, `write_csv_file`, `read_json_file`, `write_json_file` (main.py:14-37, 52-54): file and JSON input and output. The JSON written and read back between export and analytics is taken to hand back the same elements.
- `correct_pubmed_id` (main.py:40-49): a repair of the publication ids that runs before the core and is not read by it.
- `get_edge_id` (main.py:104-108): used only inside debug prints.
- The script lines that load and repair the input files (main.py:284-293), all `DEBUG` print branches, and the printing of the result (main.py:311-312).
- The `layout` and `style` values of `construct_json_data` (main.py:219-224) and the Dash/Cytoscape app (main.py:318-330): display only.
- Rows too short for `drug[1]` or `trial[3]`: records are typed values with all four fields, so the IndexError those rows raise is not modelled.
- `Text.Lower`: lower-cases ASCII letters only, weaker than Python's Unicode-aware `str.lower()`. No case folding of other scripts is modelled.
