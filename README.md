# jtools.depgraph, modelled in Dafny

`jtools.depgraph` builds the dependency graph of a list of Python packages. It does this in four steps:

1. **Filter requirements.** For each package it asks the environment which requirements the package declares. It keeps those whose environment marker is absent or true (`_eval_marker`, `_requirements_and_edges`).
2. **Walk.** Starting from the requested packages, it walks outward round by round and collects every edge `(package, dependency)` (`_get_edges`).
3. **Build the graph.** It closes the collected edges transitively, drops every package that was not requested, and takes the transitive reduction (`mk_depgraph`).
4. **Serialise.** It writes the result in DOT with nodes and edges sorted, so the text is deterministic (`to_dot`).

This project models those four steps and proves what each one computes.

- `base.dfy`, module `Base`: package names, edges, the `Result` type with the two failures (a package whose metadata cannot be read, and a graph that is not acyclic), and two counting lemmas.
- `requirements.dfy`, module `Requirements`:
  - markers as a three-way outcome: absent, evaluates to a boolean, or names an undefined environment variable;
  - the filter;
  - the two generators `_requirements_and_edges` returns.
- `discovery.dfy`, module `Discovery`:
  - The `lru_cache` of generator pairs is modelled as class `RequirementsCache`. A package's first lookup yields its names and edges. The generators are then exhausted, so every later lookup yields nothing.
  - `_get_edges` is a method with a `while` loop over rounds. Each round is `ExpandRound`, the `for` loop over the frontier.
  - Termination of the walk follows from the cache: each lookup either probes a new package or contributes nothing.
  - The result is proved equal to the applied edges of every package reachable from the requested ones. The cache counts probe calls, and no package is probed twice.
- `graphs.dfy`, module `Graphs`:
  - directed graphs as a node set and an edge set;
  - reachability by paths of length at least 1;
  - the transitive closure, computed by saturation;
  - node removal, the acyclicity test, and the transitive reduction, with its preserved reachability and its minimality.
- `depgraph.dfy`, module `DepGraph`: lines 89-93 of `mk_depgraph` as a method that threads a graph value through the three graph steps, and its end-to-end contract.
- `dot.dfy`, module `Dot`:
  - Python's string and tuple order;
  - a sort proved to be a permutation and to be sorted;
  - the proof that sorted permutations are unique;
  - the DOT text, shown to depend only on the node and edge sets.

The environment probe is a parameter. It maps each installed package to its parsed requirements. A package missing from the map is one whose metadata lookup fails. In the source that lookup runs `eval` on empty output, which raises and ends the whole build; the model returns `ProbeFailed` instead.

Where the code and a reading of its documentation differ, the model follows the code. The graph is built with `add_edges_from`, so its nodes are the endpoints of the discovered edges. A requested package that has no dependency edge, and is depended on by no discovered package, is therefore not a node of the result. The docstring's "only these are included in the graph" holds, but "all of these are included" does not.

## Model

| member | source | states |
|---|---|---|
| Requirements.EvalMarker | src/jtools/depgraph.py:27-32 | a requirement applies exactly when it has no marker or its marker is true; a marker naming an undefined environment variable makes it not apply, and no error escapes |
| Requirements.AppliedNames | src/jtools/depgraph.py:47 | the name generator yields at most one name per requirement, in order; which names it yields is stated by `AppliedNamesExactly` |
| Requirements.AppliedEdges | src/jtools/depgraph.py:47-49 | the edge generator yields one edge per applied name, in the same order, each from the looked-up package to that name |
| Requirements.RequirementsAndEdges | src/jtools/depgraph.py:43-49 | every edge of the pair has the looked-up package as source, and its targets are exactly the names the pair yields |
| Requirements.AppliedNamesExactly | src/jtools/depgraph.py:47 | a name is yielded exactly when some requirement with that name applies |
| Requirements.FilteredOutContributesNothing | src/jtools/depgraph.py:45-49 | a dependency whose every requirement is filtered out is neither yielded as a name nor the target of an edge |
| Discovery.RequirementsCache.constructor | src/jtools/depgraph.py:43 | a build starts with an empty memo and no probe calls |
| Discovery.RequirementsCache.Lookup | src/jtools/depgraph.py:43-49 | the first lookup of an installed package probes it (the call count goes from none to 1, and `Valid` keeps every count at 1) and yields its applied names and edges, leaving the memo entry exhausted; a repeat lookup yields nothing and changes nothing; a package that cannot be probed fails and changes nothing |
| Discovery.Seeds | src/jtools/depgraph.py:57 | (definition) the first frontier holds exactly the requested packages |
| Discovery.DiscoveredEdges | src/jtools/depgraph.py:52-62 | (definition, by walks from the seeds) the intended result: an edge is in it exactly when its source is discoverable from the seeds and names its target in an applying requirement |
| Discovery.NoSeedsNoEdges | src/jtools/depgraph.py:53-54 | with nothing requested, nothing is discoverable, nothing can fail, and no edge is found |
| Discovery.LookupKeepsRound | src/jtools/depgraph.py:57-60 | one lookup in a round keeps every package met discoverable, every collected edge a discovered one, and the next frontier closed under the packages probed, and it reduces the unprobed packages unless it yields nothing |
| Discovery.LookupGathersNames | src/jtools/depgraph.py:58-60 | one lookup adds to `next_pkgs` exactly the applied names of the package it newly expanded, and nothing on a repeat lookup |
| Discovery.RoundNamesComplete | src/jtools/depgraph.py:57-60 | once the whole frontier is looked up, the gathered names are those of the frontier packages not expanded before the round |
| Discovery.ExpandRound | src/jtools/depgraph.py:55-60 | one round looks up every frontier package; it fails only on a frontier package that cannot be probed; otherwise the next frontier is exactly the applied names of the frontier packages not expanded before, the edges are exactly the applied edges of all expanded packages, and the unprobed packages shrink whenever the next frontier is non-empty |
| Discovery.WalkComplete | src/jtools/depgraph.py:61 | when the frontier is empty, the probed packages are exactly the discoverable ones, all of them probeable, and the collected edges are exactly the discovered edges |
| Discovery.GetEdges | src/jtools/depgraph.py:52-62 | the walk terminates; it fails exactly when some discoverable package cannot be probed, naming one; otherwise it returns exactly the discovered edges; each package is probed at most once, and on success exactly the discoverable ones are |
| Graphs.Endpoints | src/jtools/depgraph.py:90 | (definition) the nodes a graph gets from its edges are exactly the edges' endpoints |
| Graphs.FromEdges | src/jtools/depgraph.py:89-90 | the graph built from the edges has exactly those edges, each between two of its nodes, and every node lies on one of them |
| Graphs.TransitiveClosure | src/jtools/depgraph.py:91 | the closure has an edge from a to b exactly when the edges have a path of length at least 1 from a to b |
| Graphs.Saturate | src/jtools/depgraph.py:91 | adding composed edges until nothing changes ends, and yields exactly the reachable pairs |
| Graphs.Closure | src/jtools/depgraph.py:91 | the closed graph keeps the node set and has an edge a→b exactly when the original edges lead from a to b |
| Graphs.ClosureIsTransitive | src/jtools/depgraph.py:91 | the closure is transitive |
| Graphs.RemoveNodes | src/jtools/depgraph.py:92 | (definition) removing nodes keeps exactly the other nodes and the edges between them |
| Graphs.RemoveKeepsTransitive | src/jtools/depgraph.py:92 | removing nodes from a transitive graph leaves it transitive |
| Graphs.IsDag | src/jtools/depgraph.py:93 | a graph is acyclic exactly when no node reaches itself |
| Graphs.ReducedEdges | src/jtools/depgraph.py:93 | the reduction keeps only existing edges; its reachability and minimality are `ReductionKeepsReach` and `ReductionIsMinimal` |
| Graphs.ReductionKeepsReach | src/jtools/depgraph.py:93 | in an acyclic graph, every pair connected by the edges is still connected by the reduced edges |
| Graphs.ReductionIsMinimal | src/jtools/depgraph.py:93 | removing any edge of the reduction disconnects its endpoints |
| Graphs.TransitiveReduction | src/jtools/depgraph.py:93 | the reduction fails exactly on a graph with a cycle; otherwise it keeps the nodes, uses only existing edges, has the same reachability, and is minimal |
| Graphs.ReductionOfClosedDag | src/jtools/depgraph.py:93 | in a transitive graph an edge a→b is kept exactly when no c has a→c and c→b |
| DepGraph.Restricted | src/jtools/depgraph.py:89-92 | after closure and removal, the nodes are exactly the requested packages that are endpoints of a raw edge |
| DepGraph.RestrictedClosure | src/jtools/depgraph.py:89-92 | after closure and removal, an edge a→b exists exactly when a and b are requested and the raw edges lead from a to b; the graph is transitive; and it has a cycle exactly when a requested package reaches itself |
| DepGraph.MkDepGraph | src/jtools/depgraph.py:89-93 | the build fails on a package that cannot be probed exactly when one is discoverable, and fails as not acyclic exactly when a requested package reaches itself; otherwise the nodes are the requested packages that occur in a discovered edge; one reaches another exactly when the discovered edges lead from it to the other; and no edge can be removed without losing that |
| Dot.StrLeIsTotalOrder | src/jtools/depgraph.py:112 | Python's code-point order on strings is total, antisymmetric and transitive |
| Dot.EdgeLeIsTotalOrder | src/jtools/depgraph.py:113 | Python's order on (source, target) pairs is a total order |
| Dot.Insert | src/jtools/depgraph.py:112-113 | inserting adds exactly one occurrence of the element |
| Dot.InsertKeepsSorted | src/jtools/depgraph.py:112-113 | inserting into a sorted sequence keeps it sorted |
| Dot.Sort | src/jtools/depgraph.py:112-113 | `sorted` returns a permutation of its input |
| Dot.SortIsSorted | src/jtools/depgraph.py:112-113 | under a total order `sorted` returns its input in order |
| Dot.SortedIsUnique | src/jtools/depgraph.py:112-113 | two sorted arrangements of the same elements are equal |
| Dot.ToDot | src/jtools/depgraph.py:112-114 | the text begins with the fixed header and ends with the closing brace; the lines between are stated by `ToDotLayout` |
| Dot.ToDotLayout | src/jtools/depgraph.py:112-114 | the text is the fixed header, one `"n";` line per node in sorted order, one `"a" -> "b";` line per edge in sorted order, and the closing brace |
| Dot.ToDotOrderIndependent | src/jtools/depgraph.py:112-114 | the text does not depend on the order in which the graph lists its nodes and edges |
| Dot.ToDotDependsOnSets | src/jtools/depgraph.py:112-114 | any two repetition-free listings of the same node set and edge set give the same text |

## Left out

- Probing a package through a subprocess and `eval` of its printed output (src/jtools/depgraph.py:35-40) is process I/O. It is the `Probe` parameter. Empty output, which makes `eval` raise, is a package missing from the map. Output `None` is a package mapped to no requirements.
- Parsing requirement strings and evaluating markers belong to the `packaging` library, a foreign library. A requirement is its name plus a marker outcome. Parse errors such as `InvalidRequirement`, and marker errors other than an undefined environment name, are not modelled.
- Creating the temporary virtual environment and running `pip install` (src/jtools/depgraph.py:76-87) are process and filesystem I/O.
- The networkx implementations of closure, node removal and reduction are a foreign library. They are replaced by set definitions with the same meaning.
- Graphs.TransitiveReduction: does not model networkx's order of nodes and edges. A graph is a pair of sets, and `to_dot` sorts both anyway.
- The `lru_cache` bound of 1000 entries and its persistence across separate `mk_depgraph` calls are not modelled. One build starts with a fresh cache, and the cache never evicts.
- Discovery.RequirementsCache.Lookup: consumes a package's two generators when it is looked up. The source consumes them in the two `update` calls that follow; the result is the same.
- Discovery.GetEdges: turns the requested list into a set for the first round. A repeated package would only hit its exhausted cache entry.
- Discovery.GetEdges: returns a set of edges where the source returns an empty list for an empty request. Both contain no edges.
- Writing to `fp` in `to_dot` and the `main` entry point (src/jtools/depgraph.py:115-116, 120-154) are file I/O and a fixed package list.
- `src/jtools/bom_disposal.py` and `src/jtools/depgraph/tutorial.py` are not part of this model. The first is file rewriting. The second is a transcript of library calls.
