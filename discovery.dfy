/** The discovery walk: `_get_edges` over the memo of `_requirements_and_edges`. */
module Discovery {
  import opened Base
  import opened Requirements

  /** The environment probe as a deterministic map: each installed package to its parsed
      requirements. A package outside the map is one whose metadata lookup fails. */
  type Probe = map<Pkg, seq<Requirement>>

  /** The seeds of a build: the requested packages, as a set. */
  function Seeds(pkgs: seq<Pkg>): (seeds: set<Pkg>)
    ensures forall p :: p in seeds <==> p in pkgs
  {
    set p | p in pkgs
  }

  /** A walk from a seed along applied requirements: each package on it but the last is
      installed and names the next one in an applying requirement. */
  ghost predicate IsWalk(probe: Probe, seeds: set<Pkg>, w: seq<Pkg>)
  {
    |w| >= 1 && w[0] in seeds &&
    forall i :: 0 <= i < |w| - 1 ==> w[i] in probe && w[i + 1] in AppliedNames(probe[w[i]])
  }

  /** `p` is met by a walk from the seeds. */
  ghost predicate Discoverable(probe: Probe, seeds: set<Pkg>, p: Pkg)
  {
    exists w :: IsWalk(probe, seeds, w) && w[|w| - 1] == p
  }

  /** Every discoverable package can be probed. */
  ghost predicate AllProbeable(probe: Probe, seeds: set<Pkg>)
  {
    forall p :: Discoverable(probe, seeds, p) ==> p in probe
  }

  /** The edges the walk is meant to collect: the applied edges of every discoverable package. */
  ghost predicate IsDiscoveredEdge(probe: Probe, seeds: set<Pkg>, e: Edge)
  {
    Discoverable(probe, seeds, e.0) && e.0 in probe && e.1 in AppliedNames(probe[e.0])
  }

  /** All discovered edges, as a set. */
  ghost function DiscoveredEdges(probe: Probe, seeds: set<Pkg>): (edges: set<Edge>)
    ensures forall e :: e in edges <==> IsDiscoveredEdge(probe, seeds, e)
  {
    set a, b | a in probe.Keys && b in AppliedNames(probe[a]) && Discoverable(probe, seeds, a) :: (a, b)
  }

  lemma SeedIsDiscoverable(probe: Probe, seeds: set<Pkg>, p: Pkg)
    requires p in seeds
    ensures Discoverable(probe, seeds, p)
  {
    assert IsWalk(probe, seeds, [p]);
  }

  /** With no seeds nothing is discoverable, so the walk finds no edges and cannot fail. */
  lemma NoSeedsNoEdges(probe: Probe)
    ensures forall p :: !Discoverable(probe, {}, p)
    ensures AllProbeable(probe, {})
    ensures DiscoveredEdges(probe, {}) == {}
  {
  }

  lemma {:induction false} StepIsDiscoverable(probe: Probe, seeds: set<Pkg>, p: Pkg, n: Pkg)
    requires Discoverable(probe, seeds, p) && p in probe && n in AppliedNames(probe[p])
    ensures Discoverable(probe, seeds, n)
  {
    var w :| IsWalk(probe, seeds, w) && w[|w| - 1] == p;
    var w' := w + [n];
    assert IsWalk(probe, seeds, w');
  }

  /** A set holding the seeds and the applied dependencies of each of its (installed)
      members holds every discoverable package. */
  lemma {:induction false} WalkStaysInside(probe: Probe, seeds: set<Pkg>, s: set<Pkg>, w: seq<Pkg>)
    requires seeds <= s
    requires forall p :: p in s ==> p in probe && forall n :: n in AppliedNames(probe[p]) ==> n in s
    requires IsWalk(probe, seeds, w)
    ensures w[|w| - 1] in s
  {
    if |w| > 1 {
      var v := w[..|w| - 1];
      assert IsWalk(probe, seeds, v);
      WalkStaysInside(probe, seeds, s, v);
      assert w[|w| - 2] == v[|v| - 1];
    }
  }

  /** How many probe calls `calls` records for `p`. */
  ghost function CallCount(calls: map<Pkg, nat>, p: Pkg): nat
  {
    if p in calls then calls[p] else 0
  }

  /** The memo of `_requirements_and_edges` (an `lru_cache`) for one build. It caches the pair
      of generators, so a package's first lookup yields its applied names and edges and every
      later lookup returns the same, by then exhausted, generators. */
  class RequirementsCache {
    const probe: Probe
    /** Package to the items its cached generators have yet to yield. */
    var memo: map<Pkg, Generators>
    /** How many times the probe was consulted, per package. */
    ghost var Calls: map<Pkg, nat>

    ghost predicate Valid()
      reads this
    {
      && memo.Keys <= probe.Keys
      && (forall p :: p in memo ==> memo[p] == Exhausted)
      && (forall p :: p in Calls <==> p in memo)
      && (forall p :: p in Calls ==> Calls[p] == 1)
    }

    constructor (probe: Probe)
      ensures Valid() && this.probe == probe && memo == map[] && Calls == map[]
    {
      this.probe := probe;
      memo := map[];
      Calls := map[];
    }

    /** Looks `pkg` up and consumes both generators, as `_get_edges` does. */
    method Lookup(pkg: Pkg) returns (r: Result<Generators>)
      requires Valid()
      modifies this
      ensures Valid()
      ensures pkg in old(memo) ==> r == Ok(Exhausted) && memo == old(memo) && Calls == old(Calls)
      ensures pkg !in old(memo) && pkg in probe ==>
        && r == Ok(RequirementsAndEdges(pkg, probe[pkg]))
        && memo == old(memo)[pkg := Exhausted]
        && memo.Keys == old(memo.Keys) + {pkg}
        && pkg !in old(Calls) && Calls == old(Calls)[pkg := 1]
      ensures pkg !in old(memo) && pkg !in probe ==>
        r == Err(ProbeFailed(pkg)) && memo == old(memo) && Calls == old(Calls)
    {
      if pkg in memo {
        r := Ok(memo[pkg]);
      } else if pkg in probe {
        r := Ok(RequirementsAndEdges(pkg, probe[pkg]));
        memo := memo[pkg := Exhausted];
        Calls := Calls[pkg := CallCount(Calls, pkg) + 1];
      } else {
        r := Err(ProbeFailed(pkg));
      }
    }
  }

  /** Every package in `s` is discoverable. */
  ghost predicate AllDiscoverable(probe: Probe, seeds: set<Pkg>, s: set<Pkg>)
  {
    forall p :: p in s ==> Discoverable(probe, seeds, p)
  }

  /** `edges` are exactly the applied edges of the expanded packages `done`. */
  ghost predicate EdgesOf(probe: Probe, done: set<Pkg>, edges: set<Edge>)
    requires done <= probe.Keys
  {
    forall e :: e in edges <==> e.0 in done && e.1 in AppliedNames(probe[e.0])
  }

  /** The applied dependencies of the expanded packages `done` are in `done` or `pending`. */
  ghost predicate ClosedUpTo(probe: Probe, done: set<Pkg>, pending: set<Pkg>)
    requires done <= probe.Keys
  {
    forall p :: p in done ==> forall n :: n in AppliedNames(probe[p]) ==> n in done || n in pending
  }

  /** A lookup of the discoverable `pkg` adds only discoverable names to the next frontier.
      `known` and `done` are the expanded packages before and after the lookup, `g` what it gave. */
  lemma LookupKeepsDiscoverable(probe: Probe, seeds: set<Pkg>, known: set<Pkg>, done: set<Pkg>,
                                pkg: Pkg, g: Generators, next: set<Pkg>)
    requires AllDiscoverable(probe, seeds, known + next)
    requires Discoverable(probe, seeds, pkg)
    requires pkg in known ==> done == known && g == Exhausted
    requires pkg !in known ==> pkg in probe && done == known + {pkg} && g == RequirementsAndEdges(pkg, probe[pkg])
    ensures AllDiscoverable(probe, seeds, done + (next + set n | n in g.names))
  {
    if pkg !in known {
      forall n | n in g.names ensures Discoverable(probe, seeds, n) {
        StepIsDiscoverable(probe, seeds, pkg, n);
      }
    }
  }

  /** A lookup keeps the packages expanded this round closed up to the next frontier. */
  lemma LookupKeepsClosed(probe: Probe, before: set<Pkg>, known: set<Pkg>, done: set<Pkg>,
                          pkg: Pkg, g: Generators, next: set<Pkg>)
    requires before <= known <= probe.Keys
    requires ClosedUpTo(probe, known - before, next)
    requires pkg in known ==> done == known && g == Exhausted
    requires pkg !in known ==> pkg in probe && done == known + {pkg} && g == RequirementsAndEdges(pkg, probe[pkg])
    ensures done <= probe.Keys
    ensures ClosedUpTo(probe, done - before, next + set n | n in g.names)
  {
  }

  /** A lookup keeps the accumulated edges equal to the applied edges of the expanded packages. */
  lemma LookupKeepsEdges(probe: Probe, known: set<Pkg>, done: set<Pkg>, pkg: Pkg, g: Generators, acc: set<Edge>)
    requires known <= probe.Keys
    requires EdgesOf(probe, known, acc)
    requires pkg in known ==> done == known && g == Exhausted
    requires pkg !in known ==> pkg in probe && done == known + {pkg} && g == RequirementsAndEdges(pkg, probe[pkg])
    ensures done <= probe.Keys
    ensures EdgesOf(probe, done, acc + set e | e in g.edges)
  {
  }

  /** The bookkeeping of a round part-way through: of the `frontier`, the packages outside `rest`
      have been looked up; `done` are the expanded packages, `before` those expanded before the
      round, `next` the names gathered so far and `acc` the edges collected so far. */
  ghost predicate RoundInvariant(probe: Probe, seeds: set<Pkg>, before: set<Pkg>, frontier: set<Pkg>,
                                 rest: set<Pkg>, done: set<Pkg>, next: set<Pkg>, acc: set<Edge>)
  {
    && rest <= frontier && before <= done <= before + frontier && done <= probe.Keys
    && frontier - rest <= done
    && AllDiscoverable(probe, seeds, done + next)
    && ClosedUpTo(probe, done - before, next)
    && EdgesOf(probe, done, acc)
    && |probe.Keys - done| <= |probe.Keys - before|
    && (next == {} || |probe.Keys - done| < |probe.Keys - before|)
  }

  /** The names the lookups of the packages `ps` yield: what `next_pkgs` gathers in a round. */
  ghost function NamesOf(probe: Probe, ps: set<Pkg>): set<Pkg>
    requires ps <= probe.Keys
  {
    set p, n | p in ps && n in AppliedNames(probe[p]) :: n
  }

  /** A lookup adds to the gathered names exactly the names of the package it newly expanded. */
  lemma LookupGathersNames(probe: Probe, before: set<Pkg>, known: set<Pkg>, done: set<Pkg>,
                           pkg: Pkg, g: Generators, next: set<Pkg>)
    requires before <= known <= probe.Keys
    requires next == NamesOf(probe, known - before)
    requires pkg in known ==> done == known && g == Exhausted
    requires pkg !in known ==> pkg in probe && done == known + {pkg} && g == RequirementsAndEdges(pkg, probe[pkg])
    ensures done - before <= probe.Keys
    ensures next + (set n | n in g.names) == NamesOf(probe, done - before)
  {
    if pkg in known {
      assert (set n | n in g.names) == {};
    } else {
      assert done - before == (known - before) + {pkg};
      assert next + (set n | n in g.names) == NamesOf(probe, done - before);
    }
  }

  /** Once every frontier package is looked up, the gathered names are those of the frontier
      packages that were not expanded before the round. */
  lemma RoundNamesComplete(probe: Probe, before: set<Pkg>, frontier: set<Pkg>, done: set<Pkg>, next: set<Pkg>)
    requires before <= done <= before + frontier && frontier <= done && done <= probe.Keys
    requires next == NamesOf(probe, done - before)
    ensures frontier - before <= probe.Keys
    ensures next == NamesOf(probe, frontier - before)
  {
    assert done - before == frontier - before;
  }

  /** Looking the next package of the round up keeps the round's bookkeeping. */
  lemma LookupKeepsRound(probe: Probe, seeds: set<Pkg>, before: set<Pkg>, frontier: set<Pkg>,
                         rest: set<Pkg>, known: set<Pkg>, done: set<Pkg>, next: set<Pkg>, acc: set<Edge>,
                         pkg: Pkg, g: Generators)
    requires RoundInvariant(probe, seeds, before, frontier, rest, known, next, acc)
    requires AllDiscoverable(probe, seeds, frontier)
    requires pkg in rest
    requires pkg in known ==> done == known && g == Exhausted
    requires pkg !in known ==> pkg in probe && done == known + {pkg} && g == RequirementsAndEdges(pkg, probe[pkg])
    ensures RoundInvariant(probe, seeds, before, frontier, rest - {pkg}, done,
                           next + (set n | n in g.names), acc + (set e | e in g.edges))
  {
    LookupKeepsDiscoverable(probe, seeds, known, done, pkg, g, next);
    LookupKeepsClosed(probe, before, known, done, pkg, g, next);
    LookupKeepsEdges(probe, known, done, pkg, g, acc);
    FewerOutside(probe.Keys, known, done);
  }

  /** One round of `_get_edges`: the `for pkg in pkgs` loop, which looks every frontier
      package up, adds its edges and gathers its names into the next frontier. */
  method ExpandRound(cache: RequirementsCache, frontier: set<Pkg>, edges: set<Edge>, ghost seeds: set<Pkg>)
    returns (r: Result<(set<Pkg>, set<Edge>)>)
    requires cache.Valid()
    requires AllDiscoverable(cache.probe, seeds, frontier + cache.memo.Keys)
    requires EdgesOf(cache.probe, cache.memo.Keys, edges)
    modifies cache
    ensures cache.Valid()
    ensures r.Err? ==> r.error.ProbeFailed? && r.error.pkg in frontier && r.error.pkg !in cache.probe
    ensures r.Ok? ==> RoundInvariant(cache.probe, seeds, old(cache.memo.Keys), frontier, {}, cache.memo.Keys, r.value.0, r.value.1)
    ensures r.Ok? ==>
      && frontier - old(cache.memo.Keys) <= cache.probe.Keys
      && r.value.0 == NamesOf(cache.probe, frontier - old(cache.memo.Keys))
  {
    ghost var probe := cache.probe;
    ghost var before := cache.memo.Keys;
    var next: set<Pkg> := {};
    var acc := edges;
    var rest := frontier;
    while rest != {}
      invariant cache.Valid() && cache.probe == probe
      invariant RoundInvariant(probe, seeds, before, frontier, rest, cache.memo.Keys, next, acc)
      invariant next == NamesOf(probe, cache.memo.Keys - before)
      decreases rest
    {
      var pkg :| pkg in rest;
      ghost var known := cache.memo.Keys;
      var g :- cache.Lookup(pkg);
      LookupKeepsRound(probe, seeds, before, frontier, rest, known, cache.memo.Keys, next, acc, pkg, g);
      LookupGathersNames(probe, before, known, cache.memo.Keys, pkg, g, next);
      rest := rest - {pkg};
      acc := acc + set e | e in g.edges;
      next := next + set n | n in g.names;
    }
    RoundNamesComplete(probe, before, frontier, cache.memo.Keys, next);
    r := Ok((next, acc));
  }

  /** After a round that expanded the whole frontier, the expanded packages are closed up to
      the next frontier. */
  lemma RoundStep(probe: Probe, seeds: set<Pkg>, before: set<Pkg>, done: set<Pkg>,
                  frontier: set<Pkg>, next: set<Pkg>)
    requires before <= done <= probe.Keys && frontier <= done
    requires seeds <= before + frontier
    requires ClosedUpTo(probe, before, frontier)
    requires ClosedUpTo(probe, done - before, next)
    ensures seeds <= done + next
    ensures ClosedUpTo(probe, done, next)
  {
  }

  /** When the frontier runs dry, the expanded packages are exactly the discoverable ones and
      their edges are exactly the discovered edges. */
  lemma {:induction false} WalkComplete(probe: Probe, seeds: set<Pkg>, done: set<Pkg>, edges: set<Edge>)
    requires done <= probe.Keys && seeds <= done
    requires ClosedUpTo(probe, done, {})
    requires AllDiscoverable(probe, seeds, done)
    requires EdgesOf(probe, done, edges)
    ensures AllProbeable(probe, seeds)
    ensures forall p :: p in done <==> Discoverable(probe, seeds, p)
    ensures forall e :: e in edges <==> IsDiscoveredEdge(probe, seeds, e)
    ensures edges == DiscoveredEdges(probe, seeds)
  {
    forall p | Discoverable(probe, seeds, p) ensures p in done {
      var w :| IsWalk(probe, seeds, w) && w[|w| - 1] == p;
      WalkStaysInside(probe, seeds, done, w);
    }
  }

  /** `_get_edges(pkgs, py_exe)` with a fresh cache: expands the frontier round by round and
      collects the applied edges of every package met. It fails exactly when some discoverable
      package cannot be probed, and otherwise returns exactly the discovered edges; no package
      is probed twice, and every discoverable package is probed. */
  method GetEdges(probe: Probe, pkgs: seq<Pkg>) returns (r: Result<set<Edge>>, ghost calls: map<Pkg, nat>)
    ensures r.Ok? <==> AllProbeable(probe, Seeds(pkgs))
    ensures r.Err? ==>
      && r.error.ProbeFailed?
      && Discoverable(probe, Seeds(pkgs), r.error.pkg)
      && r.error.pkg !in probe
    ensures r.Ok? ==> forall e :: e in r.value <==> IsDiscoveredEdge(probe, Seeds(pkgs), e)
    ensures r.Ok? ==> r.value == DiscoveredEdges(probe, Seeds(pkgs))
    ensures forall p :: p in calls ==> calls[p] == 1
    ensures r.Ok? ==> forall p :: p in calls <==> Discoverable(probe, Seeds(pkgs), p)
  {
    var frontier := Seeds(pkgs);
    ghost var seeds := frontier;
    var cache := new RequirementsCache(probe);
    var edges: set<Edge> := {};
    forall p | p in frontier ensures Discoverable(probe, seeds, p) {
      SeedIsDiscoverable(probe, seeds, p);
    }
    while frontier != {}
      invariant fresh(cache) && cache.Valid() && cache.probe == probe
      invariant seeds <= cache.memo.Keys + frontier
      invariant AllDiscoverable(probe, seeds, frontier + cache.memo.Keys)
      invariant ClosedUpTo(probe, cache.memo.Keys, frontier)
      invariant EdgesOf(probe, cache.memo.Keys, edges)
      decreases |probe.Keys - cache.memo.Keys|, |frontier|
    {
      ghost var before := cache.memo.Keys;
      var round := ExpandRound(cache, frontier, edges, seeds);
      if round.Err? {
        return Err(round.error), cache.Calls;
      }
      var next := round.value.0;
      ghost var done := cache.memo.Keys;
      RoundStep(probe, seeds, before, done, frontier, next);
      frontier, edges := next, round.value.1;
    }
    WalkComplete(probe, seeds, cache.memo.Keys, edges);
    return Ok(edges), cache.Calls;
  }
}
