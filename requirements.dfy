/** The requirement filter: `_eval_marker` and the two generator expressions that
    `_requirements_and_edges` builds from one package's parsed requirements. */
module Requirements {
  import opened Base

  /** What evaluating a requirement's environment marker gives in the current environment. */
  datatype Marker =
    | NoMarker                // the requirement string has no `; marker` part
    | Evaluates(value: bool)  // the marker evaluated to `value`
    | Undefined               // evaluation raised UndefinedEnvironmentName

  /** A parsed requirement: the dependency's name and its marker. */
  datatype Requirement = Requirement(name: Pkg, marker: Marker)

  /** The two generators `_requirements_and_edges` returns, as the items they will yield. */
  datatype Generators = Generators(names: seq<Pkg>, edges: seq<Edge>)

  const Exhausted := Generators([], [])

  /** A requirement applies when it has no marker or its marker is true; a marker naming an
      unknown environment variable counts as false (fail-closed) and raises nothing. */
  function EvalMarker(r: Requirement): (applies: bool)
    ensures applies <==> r.marker.NoMarker? || r.marker == Evaluates(true)
    ensures r.marker.Undefined? ==> !applies
  {
    match r.marker
    case NoMarker => true
    case Evaluates(b) => b
    case Undefined => false
  }

  /** `(r.name for r in reqs if _eval_marker(r))`, in the order of `reqs`. */
  function AppliedNames(reqs: seq<Requirement>): (names: seq<Pkg>)
    ensures |names| <= |reqs|
  {
    if reqs == [] then []
    else
      (if EvalMarker(reqs[0]) then [reqs[0].name] else []) + AppliedNames(reqs[1..])
  }

  /** `((pkg, r.name) for r in reqs if _eval_marker(r))`: one edge from `pkg` per applied
      name, in the same order. */
  function AppliedEdges(pkg: Pkg, reqs: seq<Requirement>): (edges: seq<Edge>)
    ensures |edges| == |AppliedNames(reqs)|
    ensures forall i :: 0 <= i < |edges| ==> edges[i] == (pkg, AppliedNames(reqs)[i])
    ensures forall e :: e in edges <==> e.0 == pkg && e.1 in AppliedNames(reqs)
  {
    if reqs == [] then []
    else
      var rest := AppliedEdges(pkg, reqs[1..]);
      assert AppliedNames(reqs) ==
        (if EvalMarker(reqs[0]) then [reqs[0].name] else []) + AppliedNames(reqs[1..]);
      (if EvalMarker(reqs[0]) then [(pkg, reqs[0].name)] else []) + rest
  }

  /** The pair of generators `_requirements_and_edges(pkg, ...)` returns for the requirements
      the probe reported for `pkg`. */
  function RequirementsAndEdges(pkg: Pkg, reqs: seq<Requirement>): (g: Generators)
    ensures forall e :: e in g.edges <==> e.0 == pkg && e.1 in g.names
  {
    Generators(AppliedNames(reqs), AppliedEdges(pkg, reqs))
  }

  /** A name is emitted exactly when some requirement with that name applies. */
  lemma {:induction false} AppliedNamesExactly(reqs: seq<Requirement>, n: Pkg)
    ensures n in AppliedNames(reqs) <==> exists r :: r in reqs && EvalMarker(r) && r.name == n
  {
    if reqs != [] {
      AppliedNamesExactly(reqs[1..], n);
      assert forall r :: r in reqs <==> r == reqs[0] || r in reqs[1..];
    }
  }

  /** A dependency whose every requirement is filtered out yields neither a name nor an edge. */
  lemma {:induction false} FilteredOutContributesNothing(pkg: Pkg, reqs: seq<Requirement>, d: Pkg)
    requires forall r :: r in reqs && r.name == d ==> !EvalMarker(r)
    ensures d !in AppliedNames(reqs)
    ensures forall e :: e in AppliedEdges(pkg, reqs) ==> e.1 != d
  {
    if reqs != [] {
      FilteredOutContributesNothing(pkg, reqs[1..], d);
      assert AppliedNames(reqs) ==
        (if EvalMarker(reqs[0]) then [reqs[0].name] else []) + AppliedNames(reqs[1..]);
    }
  }
}
