/** Names, edges and the error outcomes shared by the dependency-graph modules. */
module Base {

  /** A package name, an opaque token compared by string equality. */
  type Pkg = string

  /** An edge (dependent, dependency): "dependent requires dependency". */
  type Edge = (Pkg, Pkg)

  /** The ways a build fails. */
  datatype Error =
    | ProbeFailed(pkg: Pkg)  // the probe had no metadata for `pkg`, so `eval` of its empty output raised
    | NotADag                // `transitive_reduction` was given a graph with a cycle

  datatype Result<+T> = Ok(value: T) | Err(error: Error) {

    predicate IsFailure() {
      Err?
    }

    function PropagateFailure<U>(): Result<U>
      requires Err?
    {
      Err(error)
    }

    function Extract(): T
      requires Ok?
    {
      value
    }
  }

  /** Growing a subset of a finite universe shrinks what lies outside it. */
  lemma FewerOutside<T>(universe: set<T>, small: set<T>, large: set<T>)
    requires small <= large <= universe
    ensures |universe - large| <= |universe - small|
    ensures small != large ==> |universe - large| < |universe - small|
  {
    var gone := large - small;
    assert universe - small == (universe - large) + gone;
    assert (universe - large) * gone == {};
    if small != large {
      var p :| p in gone;
    }
  }

  /** A proper subset is smaller. */
  lemma ProperSubsetSmaller<T>(small: set<T>, large: set<T>)
    requires small < large
    ensures |small| < |large|
  {
    FewerOutside(large, small, large);
  }
}
