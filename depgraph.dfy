/** `mk_depgraph` once the packages are installed: discover the raw edges, close them
    transitively, drop every node that was not requested, and reduce what remains. */
module DepGraph {
  import opened Base
  import opened Discovery
  import opened Graphs

  /** Lines 89-92: the graph of the raw edges, closed, with every unrequested node removed. */
  function Restricted(raw: set<Edge>, pkgs: seq<Pkg>): (g: Graph)
    ensures forall n :: n in g.nodes <==> n in Endpoints(raw) && n in pkgs
  {
    RemoveNodes(Closure(FromEdges(raw)), set n | n in Endpoints(raw) && n !in pkgs)
  }

  /** The closure of the raw edges with the unrequested nodes removed: its edges are the
      requested pairs the raw edges connect, its nodes the requested endpoints, and it is
      transitive and acyclic exactly when no requested package reaches itself. */
  lemma RestrictedClosure(raw: set<Edge>, pkgs: seq<Pkg>)
    ensures var g := Restricted(raw, pkgs);
      forall a, b :: (a, b) in g.edges <==> a in pkgs && b in pkgs && Reaches(raw, a, b)
    ensures Transitive(Restricted(raw, pkgs).edges)
    ensures var g := Restricted(raw, pkgs);
      forall a, b :: Reaches(g.edges, a, b) <==> (a, b) in g.edges
    ensures var g := Restricted(raw, pkgs);
      (exists a :: Reaches(g.edges, a, a)) <==> exists a :: a in pkgs && Reaches(raw, a, a)
  {
    var g := Restricted(raw, pkgs);
    var drop := set n | n in Endpoints(raw) && n !in pkgs;
    forall a, b ensures (a, b) in g.edges <==> a in pkgs && b in pkgs && Reaches(raw, a, b) {
      if Reaches(raw, a, b) {
        ReachesEndpoints(raw, a, b);
      }
    }
    ClosureIsTransitive(raw);
    RemoveKeepsTransitive(Closure(FromEdges(raw)), drop);
    forall a, b ensures Reaches(g.edges, a, b) <==> (a, b) in g.edges {
      TransitiveReachesIsEdge(g.edges, a, b);
    }
  }

  /** `mk_depgraph(pkgs, py_exe)` from line 89 on. It fails with the probe's error when some
      discoverable package cannot be probed, and with `NotADag` when a requested package
      reaches itself through the raw edges. Otherwise the graph's nodes are the requested
      packages that occur in a raw edge; one requested package reaches another in it exactly
      when it does through the raw edges; and no edge can be dropped without losing that. */
  method MkDepGraph(probe: Probe, pkgs: seq<Pkg>) returns (r: Result<Graph>)
    ensures r.Err? && r.error.ProbeFailed? <==> !AllProbeable(probe, Seeds(pkgs))
    ensures r.Err? && r.error.ProbeFailed? ==>
      Discoverable(probe, Seeds(pkgs), r.error.pkg) && r.error.pkg !in probe
    ensures r == Err(NotADag) <==>
      AllProbeable(probe, Seeds(pkgs)) &&
      exists a :: a in pkgs && Reaches(DiscoveredEdges(probe, Seeds(pkgs)), a, a)
    ensures r.Ok? ==> forall n :: n in r.value.nodes <==>
      n in pkgs && n in Endpoints(DiscoveredEdges(probe, Seeds(pkgs)))
    ensures r.Ok? ==> forall e :: e in r.value.edges ==> e.0 in r.value.nodes && e.1 in r.value.nodes
    ensures r.Ok? ==> forall a, b :: Reaches(r.value.edges, a, b) <==>
      a in pkgs && b in pkgs && Reaches(DiscoveredEdges(probe, Seeds(pkgs)), a, b)
    ensures r.Ok? ==> forall e :: e in r.value.edges ==> !Reaches(r.value.edges - {e}, e.0, e.1)
  {
    ghost var calls;
    var edges;
    edges, calls := GetEdges(probe, pkgs);
    var raw :- edges;
    var g := FromEdges(raw);
    g := Closure(g);
    g := RemoveNodes(g, set n | n in g.nodes && n !in pkgs);
    assert g == Restricted(raw, pkgs);
    RestrictedClosure(raw, pkgs);
    r := TransitiveReduction(g);
    if r.Ok? {
      forall e | e in r.value.edges ensures e.0 in r.value.nodes && e.1 in r.value.nodes {
        ReachesEndpoints(raw, e.0, e.1);
      }
    }
  }
}
