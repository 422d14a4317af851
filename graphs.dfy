/** Directed graphs as sets of edges, and the three graph steps of `mk_depgraph`: transitive
    closure, removal of the unrequested nodes, and transitive reduction. */
module Graphs {
  import opened Base

  /** A directed graph as networkx holds it: a node set and an edge set over it. */
  datatype Graph = Graph(nodes: set<Pkg>, edges: set<Edge>)

  /** The nodes that occur in some edge. */
  function Endpoints(E: set<Edge>): (ns: set<Pkg>)
    ensures forall e :: e in E ==> e.0 in ns && e.1 in ns
    ensures forall n :: n in ns ==> exists e :: e in E && (e.0 == n || e.1 == n)
  {
    (set e | e in E :: e.0) + (set e | e in E :: e.1)
  }

  /** `g = nx.DiGraph(); g.add_edges_from(E)`: the nodes are exactly the endpoints of `E`. */
  function FromEdges(E: set<Edge>): (g: Graph)
    ensures g.edges == E
    ensures forall e :: e in g.edges ==> e.0 in g.nodes && e.1 in g.nodes
    ensures forall n :: n in g.nodes ==> exists e :: e in E && (e.0 == n || e.1 == n)
  {
    Graph(Endpoints(E), E)
  }

  /** A directed path of at least one edge. */
  ghost predicate IsPath(E: set<Edge>, w: seq<Pkg>)
  {
    |w| >= 2 && forall i :: 0 <= i < |w| - 1 ==> (w[i], w[i + 1]) in E
  }

  /** `b` is reachable from `a` by a path of length at least one. */
  ghost predicate Reaches(E: set<Edge>, a: Pkg, b: Pkg)
  {
    exists w :: IsPath(E, w) && w[0] == a && w[|w| - 1] == b
  }

  predicate Transitive(E: set<Edge>)
  {
    forall e1, e2 :: e1 in E && e2 in E && e1.1 == e2.0 ==> (e1.0, e2.1) in E
  }

  lemma EdgeReaches(E: set<Edge>, a: Pkg, b: Pkg)
    requires (a, b) in E
    ensures Reaches(E, a, b)
  {
    assert IsPath(E, [a, b]);
  }

  lemma {:induction false} ReachesTrans(E: set<Edge>, a: Pkg, b: Pkg, c: Pkg)
    requires Reaches(E, a, b) && Reaches(E, b, c)
    ensures Reaches(E, a, c)
  {
    var u :| IsPath(E, u) && u[0] == a && u[|u| - 1] == b;
    var v :| IsPath(E, v) && v[0] == b && v[|v| - 1] == c;
    var w := u + v[1..];
    forall i | 0 <= i < |w| - 1 ensures (w[i], w[i + 1]) in E {
      if i < |u| - 1 {
        assert w[i] == u[i] && w[i + 1] == u[i + 1];
      } else {
        var k := i - |u| + 1;
        assert w[i] == v[k] && w[i + 1] == v[k + 1];
      }
    }
    assert IsPath(E, w);
  }

  /** A path leaves `a` by some edge `(a, v)` and either stops at `v` or goes on from it. */
  lemma FirstStep(E: set<Edge>, a: Pkg, b: Pkg) returns (v: Pkg)
    requires Reaches(E, a, b)
    ensures (a, v) in E && (v == b || Reaches(E, v, b))
    ensures (a, b) !in E ==> v != b
  {
    var w :| IsPath(E, w) && w[0] == a && w[|w| - 1] == b;
    v := w[1];
    if |w| > 2 {
      assert IsPath(E, w[1..]);
    }
  }

  lemma ReachesMono(E: set<Edge>, F: set<Edge>, a: Pkg, b: Pkg)
    requires E <= F && Reaches(E, a, b)
    ensures Reaches(F, a, b)
  {
    var w :| IsPath(E, w) && w[0] == a && w[|w| - 1] == b;
    assert IsPath(F, w);
  }

  lemma ReachesEndpoints(E: set<Edge>, a: Pkg, b: Pkg)
    requires Reaches(E, a, b)
    ensures a in Endpoints(E) && b in Endpoints(E)
  {
    var w :| IsPath(E, w) && w[0] == a && w[|w| - 1] == b;
    assert (w[0], w[1]) in E;
    assert (w[|w| - 2], w[|w| - 1]) in E;
  }

  /** A transitive relation holding the edges of a path holds the path's end-to-end pair. */
  lemma {:induction false} PathInTransitive(E: set<Edge>, C: set<Edge>, w: seq<Pkg>)
    requires E <= C && Transitive(C) && IsPath(E, w)
    ensures (w[0], w[|w| - 1]) in C
  {
    if |w| > 2 {
      var v := w[..|w| - 1];
      assert IsPath(E, v);
      PathInTransitive(E, C, v);
      assert (w[|w| - 2], w[|w| - 1]) in E;
    }
  }

  /** In a transitive relation reachability is membership. */
  lemma TransitiveReachesIsEdge(C: set<Edge>, a: Pkg, b: Pkg)
    requires Transitive(C)
    ensures Reaches(C, a, b) <==> (a, b) in C
  {
    if Reaches(C, a, b) {
      var w :| IsPath(C, w) && w[0] == a && w[|w| - 1] == b;
      PathInTransitive(C, C, w);
    }
    if (a, b) in C {
      EdgeReaches(C, a, b);
    }
  }

  /** Pairs `(a, c)` joined by a middle node. */
  function Compose(C: set<Edge>): set<Edge>
  {
    set e1, e2 | e1 in C && e2 in C && e1.1 == e2.0 :: (e1.0, e2.1)
  }

  function Square(N: set<Pkg>): set<Edge>
  {
    set a, b | a in N && b in N :: (a, b)
  }

  /** Composing pairs that `E` reaches gives pairs that `E` reaches. */
  lemma ComposeSound(E: set<Edge>, C: set<Edge>)
    requires forall e :: e in C ==> Reaches(E, e.0, e.1)
    ensures forall e :: e in Compose(C) ==> Reaches(E, e.0, e.1)
  {
    forall e | e in Compose(C) ensures Reaches(E, e.0, e.1) {
      var e1, e2 :| e1 in C && e2 in C && e1.1 == e2.0 && e == (e1.0, e2.1);
      ReachesTrans(E, e1.0, e1.1, e2.1);
    }
  }

  /** Pairs that `E` reaches lie among its endpoints. */
  lemma ReachedWithinSquare(E: set<Edge>, C: set<Edge>)
    requires forall e :: e in C ==> Reaches(E, e.0, e.1)
    ensures C <= Square(Endpoints(E))
  {
    forall e | e in C ensures e in Square(Endpoints(E)) {
      ReachesEndpoints(E, e.0, e.1);
    }
  }

  /** A relation holding `E` and closed under composition holds all of `E`'s reachability. */
  lemma SaturatedIsComplete(E: set<Edge>, C: set<Edge>)
    requires E <= C && Compose(C) <= C
    ensures forall a, b :: Reaches(E, a, b) ==> (a, b) in C
  {
    assert Transitive(C) by {
      forall e1, e2 | e1 in C && e2 in C && e1.1 == e2.0 ensures (e1.0, e2.1) in C {
        assert (e1.0, e2.1) in Compose(C);
      }
    }
    forall a, b | Reaches(E, a, b) ensures (a, b) in C {
      var w :| IsPath(E, w) && w[0] == a && w[|w| - 1] == b;
      PathInTransitive(E, C, w);
    }
  }

  /** Adds composed pairs to `C` until nothing new appears; the result is `E`'s reachability. */
  function Saturate(E: set<Edge>, C: set<Edge>): (T: set<Edge>)
    requires E <= C
    requires forall e :: e in C ==> Reaches(E, e.0, e.1)
    ensures forall a, b :: (a, b) in T <==> Reaches(E, a, b)
    decreases |Square(Endpoints(E)) - C|
  {
    var next := C + Compose(C);
    ComposeSound(E, C);
    if next == C then
      SaturatedIsComplete(E, C);
      C
    else
      ReachedWithinSquare(E, next);
      FewerOutside(Square(Endpoints(E)), C, next);
      Saturate(E, next)
  }

  /** `nx.transitive_closure(g)` on the edges (not reflexive): `(a, b)` is an edge exactly when
      a path of length at least one leads from `a` to `b`, so `(a, a)` only on a cycle. */
  function TransitiveClosure(E: set<Edge>): (C: set<Edge>)
    ensures forall a, b :: (a, b) in C <==> Reaches(E, a, b)
  {
    forall e | e in E ensures Reaches(E, e.0, e.1) {
      EdgeReaches(E, e.0, e.1);
    }
    Saturate(E, E)
  }

  lemma ClosureIsTransitive(E: set<Edge>)
    ensures Transitive(TransitiveClosure(E))
  {
    var C := TransitiveClosure(E);
    forall e1, e2 | e1 in C && e2 in C && e1.1 == e2.0 ensures (e1.0, e2.1) in C {
      ReachesTrans(E, e1.0, e1.1, e2.1);
    }
  }

  /** `g = nx.transitive_closure(g)`: the node set is kept. */
  function Closure(g: Graph): (c: Graph)
    ensures c.nodes == g.nodes
    ensures forall a, b :: (a, b) in c.edges <==> Reaches(g.edges, a, b)
  {
    Graph(g.nodes, TransitiveClosure(g.edges))
  }

  /** `g.remove_nodes_from(drop)`: the nodes go, and every edge touching one of them. */
  function RemoveNodes(g: Graph, drop: set<Pkg>): (h: Graph)
    ensures h.nodes <= g.nodes && h.edges <= g.edges
    ensures forall n :: n in h.nodes <==> n in g.nodes && n !in drop
    ensures forall e :: e in h.edges <==> e in g.edges && e.0 !in drop && e.1 !in drop
  {
    Graph(g.nodes - drop, set e | e in g.edges && e.0 !in drop && e.1 !in drop)
  }

  /** Removing nodes from a transitive edge set leaves it transitive. */
  lemma RemoveKeepsTransitive(g: Graph, drop: set<Pkg>)
    requires Transitive(g.edges)
    ensures Transitive(RemoveNodes(g, drop).edges)
  {
  }

  /** `nx.is_directed_acyclic_graph(g)`: no node reaches itself. */
  function IsDag(g: Graph): (dag: bool)
    ensures dag <==> forall a :: !Reaches(g.edges, a, a)
  {
    var C := TransitiveClosure(g.edges);
    forall e | e in C :: e.0 != e.1
  }

  /** The edges `nx.transitive_reduction` keeps: `(u, w)` unless some successor `v` of `u`
      reaches `w`. */
  function ReducedEdges(E: set<Edge>): (R: set<Edge>)
    ensures R <= E
  {
    var C := TransitiveClosure(E);
    var N := Endpoints(E);
    set e | e in E && !(exists v | v in N :: (e.0, v) in E && (v, e.1) in C)
  }

  /** The nodes a path from `a` to `b` can pass through. */
  ghost function Between(E: set<Edge>, a: Pkg, b: Pkg): set<Pkg>
  {
    set c | c in Endpoints(E) && Reaches(E, a, c) && Reaches(E, c, b)
  }

  /** In a DAG every pair `E` reaches is still reached through the kept edges. */
  lemma {:induction false} ReductionKeepsReach(E: set<Edge>, a: Pkg, b: Pkg)
    requires forall x :: !Reaches(E, x, x)
    requires Reaches(E, a, b)
    ensures Reaches(ReducedEdges(E), a, b)
    decreases |Between(E, a, b)|
  {
    var R := ReducedEdges(E);
    if (a, b) in R {
      EdgeReaches(R, a, b);
    } else {
      var v: Pkg;
      if (a, b) in E {
        v :| v in Endpoints(E) && (a, v) in E && (v, b) in TransitiveClosure(E);
      } else {
        v := FirstStep(E, a, b);
      }
      assert Reaches(E, v, b);
      EdgeReaches(E, a, v);
      ReachesEndpoints(E, a, v);
      assert v in Between(E, a, b) && v !in Between(E, a, v) && v !in Between(E, v, b);
      forall c | c in Between(E, a, v) ensures c in Between(E, a, b) {
        ReachesTrans(E, c, v, b);
      }
      forall c | c in Between(E, v, b) ensures c in Between(E, a, b) {
        ReachesTrans(E, a, v, c);
      }
      ProperSubsetSmaller(Between(E, a, v), Between(E, a, b));
      ProperSubsetSmaller(Between(E, v, b), Between(E, a, b));
      ReductionKeepsReach(E, a, v);
      ReductionKeepsReach(E, v, b);
      ReachesTrans(R, a, v, b);
    }
  }

  /** No kept edge can be dropped: without it its endpoints are no longer connected. */
  lemma ReductionIsMinimal(E: set<Edge>, e: Edge)
    ensures e in ReducedEdges(E) ==> !Reaches(ReducedEdges(E) - {e}, e.0, e.1)
  {
    var R := ReducedEdges(E);
    if e in R && Reaches(R - {e}, e.0, e.1) {
      var v := FirstStep(R - {e}, e.0, e.1);
      if v != e.1 {
        ReachesMono(R - {e}, E, v, e.1);
      }
      assert false;
    }
  }

  /** `nx.transitive_reduction(g)`: raises on a graph with a cycle; otherwise keeps the node
      set, keeps only edges of `g`, connects exactly the pairs `g` connects, and no kept edge
      can be dropped without losing a connection. */
  function TransitiveReduction(g: Graph): (r: Result<Graph>)
    ensures r.Err? <==> exists a :: Reaches(g.edges, a, a)
    ensures r.Err? ==> r.error == NotADag
    ensures r.Ok? ==> r.value.nodes == g.nodes && r.value.edges <= g.edges
    ensures r.Ok? ==> forall a, b :: Reaches(r.value.edges, a, b) <==> Reaches(g.edges, a, b)
    ensures r.Ok? ==> forall e :: e in r.value.edges ==> !Reaches(r.value.edges - {e}, e.0, e.1)
  {
    if !IsDag(g) then Err(NotADag)
    else
      var R := ReducedEdges(g.edges);
      forall a, b ensures Reaches(R, a, b) <==> Reaches(g.edges, a, b) {
        if Reaches(R, a, b) {
          ReachesMono(R, g.edges, a, b);
        }
        if Reaches(g.edges, a, b) {
          ReductionKeepsReach(g.edges, a, b);
        }
      }
      forall e | e in R ensures !Reaches(R - {e}, e.0, e.1) {
        ReductionIsMinimal(g.edges, e);
      }
      Ok(Graph(g.nodes, R))
  }

  /** On a transitively closed DAG an edge `(a, b)` is kept exactly when no `c` has edges
      `(a, c)` and `(c, b)`. */
  lemma ReductionOfClosedDag(E: set<Edge>, e: Edge)
    requires Transitive(E)
    ensures e in ReducedEdges(E) <==> e in E && !exists c :: (e.0, c) in E && (c, e.1) in E
  {
    forall x, y ensures (x, y) in TransitiveClosure(E) <==> (x, y) in E {
      TransitiveReachesIsEdge(E, x, y);
    }
  }
}
