/** The text `to_dot` builds: a fixed header, the nodes in sorted order, the edges in sorted
    (source, target) order, and a closing brace. */
module Dot {
  import opened Base

  /** `x <= y` for a total order. */
  ghost predicate TotalOrder<T(!new)>(le: (T, T) -> bool)
  {
    && (forall x, y :: le(x, y) || le(y, x))
    && (forall x, y :: le(x, y) && le(y, x) ==> x == y)
    && (forall x, y, z :: le(x, y) && le(y, z) ==> le(x, z))
  }

  predicate SortedBy<T>(s: seq<T>, le: (T, T) -> bool)
  {
    forall i, j :: 0 <= i < j < |s| ==> le(s[i], s[j])
  }

  /** Python's `<=` on `str`: lexicographic by code point, a prefix first. */
  predicate StrLe(a: string, b: string)
  {
    |a| == 0 || (|b| > 0 && (a[0] < b[0] || (a[0] == b[0] && StrLe(a[1..], b[1..]))))
  }

  /** Python's `<=` on a pair of strings: by the first, then by the second. */
  predicate EdgeLe(x: Edge, y: Edge)
  {
    if x.0 == y.0 then StrLe(x.1, y.1) else StrLe(x.0, y.0)
  }

  lemma {:induction false} StrLeTotal(a: string, b: string)
    ensures StrLe(a, b) || StrLe(b, a)
  {
    if |a| > 0 && |b| > 0 && a[0] == b[0] {
      StrLeTotal(a[1..], b[1..]);
    }
  }

  lemma {:induction false} StrLeAntisymmetric(a: string, b: string)
    requires StrLe(a, b) && StrLe(b, a)
    ensures a == b
  {
    if |a| > 0 {
      StrLeAntisymmetric(a[1..], b[1..]);
      assert a == [a[0]] + a[1..] && b == [b[0]] + b[1..];
    }
  }

  lemma {:induction false} StrLeTransitive(a: string, b: string, c: string)
    requires StrLe(a, b) && StrLe(b, c)
    ensures StrLe(a, c)
  {
    if |a| > 0 && a[0] == b[0] && b[0] == c[0] {
      StrLeTransitive(a[1..], b[1..], c[1..]);
    }
  }

  lemma StrLeIsTotalOrder()
    ensures TotalOrder(StrLe)
  {
    forall a, b ensures StrLe(a, b) || StrLe(b, a) {
      StrLeTotal(a, b);
    }
    forall a, b | StrLe(a, b) && StrLe(b, a) ensures a == b {
      StrLeAntisymmetric(a, b);
    }
    forall a, b, c | StrLe(a, b) && StrLe(b, c) ensures StrLe(a, c) {
      StrLeTransitive(a, b, c);
    }
  }

  lemma EdgeLeIsTotalOrder()
    ensures TotalOrder(EdgeLe)
  {
    StrLeIsTotalOrder();
    forall x, y | EdgeLe(x, y) && EdgeLe(y, x) ensures x == y {
      if x.0 == y.0 {
        StrLeAntisymmetric(x.1, y.1);
      } else {
        StrLeAntisymmetric(x.0, y.0);
      }
    }
  }

  /** Inserts `x` into the sorted `s` before its first element not below `x`. */
  function Insert<T>(x: T, s: seq<T>, le: (T, T) -> bool): (r: seq<T>)
    ensures multiset(r) == multiset(s) + multiset{x}
  {
    if s == [] || le(x, s[0]) then
      [x] + s
    else
      assert s == [s[0]] + s[1..];
      [s[0]] + Insert(x, s[1..], le)
  }

  lemma {:induction false} InsertKeepsSorted<T(!new)>(x: T, s: seq<T>, le: (T, T) -> bool)
    requires TotalOrder(le) && SortedBy(s, le)
    ensures SortedBy(Insert(x, s, le), le)
  {
    if s != [] && !le(x, s[0]) {
      InsertKeepsSorted(x, s[1..], le);
      var rest := Insert(x, s[1..], le);
      assert s == [s[0]] + s[1..];
      forall k | 0 <= k < |rest| ensures le(s[0], rest[k]) {
        assert rest[k] in multiset(s[1..]) + multiset{x};
        if rest[k] != x {
          var j :| 0 <= j < |s[1..]| && s[1..][j] == rest[k];
          assert le(s[0], s[j + 1]);
        }
      }
    }
  }

  /** `sorted(s)` for the order `le`: a permutation of `s`. */
  function Sort<T>(s: seq<T>, le: (T, T) -> bool): (r: seq<T>)
    ensures multiset(r) == multiset(s)
  {
    if s == [] then []
    else
      assert s == [s[0]] + s[1..];
      Insert(s[0], Sort(s[1..], le), le)
  }

  /** Under a total order `Sort` puts its result in order. */
  lemma {:induction false} SortIsSorted<T(!new)>(s: seq<T>, le: (T, T) -> bool)
    requires TotalOrder(le)
    ensures SortedBy(Sort(s, le), le)
  {
    if s != [] {
      SortIsSorted(s[1..], le);
      InsertKeepsSorted(s[0], Sort(s[1..], le), le);
    }
  }

  /** The head of a sorted sequence is below everything in it. */
  lemma HeadIsLeast<T(!new)>(t: seq<T>, x: T, le: (T, T) -> bool)
    requires TotalOrder(le) && SortedBy(t, le) && x in t
    ensures le(t[0], x)
  {
  }

  /** Under a total order a multiset has one sorted arrangement. */
  lemma {:induction false} SortedIsUnique<T(!new)>(s: seq<T>, t: seq<T>, le: (T, T) -> bool)
    requires TotalOrder(le)
    requires SortedBy(s, le) && SortedBy(t, le) && multiset(s) == multiset(t)
    ensures s == t
  {
    assert |s| == |multiset(s)| == |multiset(t)| == |t|;
    if s != [] {
      assert s[0] in multiset(t) && t[0] in multiset(s);
      HeadIsLeast(t, s[0], le);
      HeadIsLeast(s, t[0], le);
      assert s == [s[0]] + s[1..] && t == [t[0]] + t[1..];
      assert multiset(s[1..]) == multiset(s) - multiset{s[0]};
      assert multiset(t[1..]) == multiset(t) - multiset{t[0]};
      SortedIsUnique(s[1..], t[1..], le);
    }
  }

  const Header: string := "// generated using `jtools.depgraph`\ndigraph {\n    rankdir=RL;\n"
  const Footer: string := "}\n"

  function NodeLine(n: Pkg): string
  {
    "    \"" + n + "\";\n"
  }

  function EdgeLine(e: Edge): string
  {
    "    \"" + e.0 + "\" -> \"" + e.1 + "\";\n"
  }

  function NodeLines(ns: seq<Pkg>): string
  {
    if ns == [] then "" else NodeLine(ns[0]) + NodeLines(ns[1..])
  }

  function EdgeLines(es: seq<Edge>): string
  {
    if es == [] then "" else EdgeLine(es[0]) + EdgeLines(es[1..])
  }

  /** `to_dot(g)`, given the graph's nodes and edges in whatever order the graph lists them. */
  function ToDot(nodes: seq<Pkg>, edges: seq<Edge>): (text: string)
    ensures |text| >= |Header| + |Footer|
    ensures text[..|Header|] == Header && text[|text| - |Footer|..] == Footer
  {
    Header + NodeLines(Sort(nodes, StrLe)) + EdgeLines(Sort(edges, EdgeLe)) + Footer
  }

  /** The text is the header, one line per node in sorted order, one line per edge in sorted
      (source, target) order, and the closing brace. */
  lemma ToDotLayout(nodes: seq<Pkg>, edges: seq<Edge>, ns: seq<Pkg>, es: seq<Edge>)
    requires SortedBy(ns, StrLe) && multiset(ns) == multiset(nodes)
    requires SortedBy(es, EdgeLe) && multiset(es) == multiset(edges)
    ensures ToDot(nodes, edges) == Header + NodeLines(ns) + EdgeLines(es) + Footer
  {
    StrLeIsTotalOrder();
    EdgeLeIsTotalOrder();
    SortIsSorted(nodes, StrLe);
    SortIsSorted(edges, EdgeLe);
    SortedIsUnique(Sort(nodes, StrLe), ns, StrLe);
    SortedIsUnique(Sort(edges, EdgeLe), es, EdgeLe);
  }

  /** The text does not depend on the order in which nodes and edges were inserted. */
  lemma ToDotOrderIndependent(n1: seq<Pkg>, e1: seq<Edge>, n2: seq<Pkg>, e2: seq<Edge>)
    requires multiset(n1) == multiset(n2) && multiset(e1) == multiset(e2)
    ensures ToDot(n1, e1) == ToDot(n2, e2)
  {
    StrLeIsTotalOrder();
    EdgeLeIsTotalOrder();
    SortIsSorted(n1, StrLe);
    SortIsSorted(e1, EdgeLe);
    ToDotLayout(n2, e2, Sort(n1, StrLe), Sort(e1, EdgeLe));
  }

  /** Each value occurs at most once. */
  predicate Distinct<T(==)>(s: seq<T>)
  {
    forall i, j :: 0 <= i < j < |s| ==> s[i] != s[j]
  }

  lemma {:induction false} DistinctMultiplicity<T>(s: seq<T>, x: T)
    requires Distinct(s)
    ensures multiset(s)[x] == if x in s then 1 else 0
  {
    if s != [] {
      assert s == [s[0]] + s[1..];
      DistinctMultiplicity(s[1..], x);
    }
  }

  /** A graph's nodes and edges are sets: any two listings of the same node set and edge set
      give the same text. */
  lemma ToDotDependsOnSets(n1: seq<Pkg>, e1: seq<Edge>, n2: seq<Pkg>, e2: seq<Edge>)
    requires Distinct(n1) && Distinct(n2) && Distinct(e1) && Distinct(e2)
    requires forall n :: n in n1 <==> n in n2
    requires forall e :: e in e1 <==> e in e2
    ensures ToDot(n1, e1) == ToDot(n2, e2)
  {
    forall n ensures multiset(n1)[n] == multiset(n2)[n] {
      DistinctMultiplicity(n1, n);
      DistinctMultiplicity(n2, n);
    }
    forall e ensures multiset(e1)[e] == multiset(e2)[e] {
      DistinctMultiplicity(e1, e);
      DistinctMultiplicity(e2, e);
    }
    ToDotOrderIndependent(n1, e1, n2, e2);
  }
}
