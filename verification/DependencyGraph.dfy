/**
 Graphs of files and the theory of walks in them: what a dependency cycle is, why an order
 with dependencies first excludes one, and why a set of files that all wait for each other
 contains one.
 */
module DependencyGraph {
  import opened OrderedMaps
  import opened Sequences

  /** A normalised path. */
  type File = string

  /** "From depends on to", as a set of pairs. */
  type Relation = set<(File, File)>

  type Edges = seq<(File, File)>

  /** The graph that the analyzer works on: an adjacency map and, beside it, a list of edges. */
  datatype Graph = Graph(nodes: OrderedMap<File, seq<File>>, edges: Edges)
  {
    /** The dependencies of a file; a file that is no key of the map has none. */
    function Deps(f: File): seq<File> {
      nodes.GetOr(f, [])
    }

    /** The relation that the adjacency map holds. */
    ghost function Arcs(): Relation {
      set u, v | u in nodes.entries && v in nodes.entries[u] :: (u, v)
    }

    /** The relation that the edge list holds. */
    ghost function EdgeArcs(): Relation {
      set e | e in edges
    }

    /** Every file that the adjacency map mentions. */
    ghost function Universe(): set<File> {
      nodes.entries.Keys + set u, v | u in nodes.entries && v in nodes.entries[u] :: v
    }
  }

  // ------------------------------------------------------------------ walks

  ghost predicate Walk(r: Relation, w: seq<File>) {
    |w| >= 1 && forall i :: 0 <= i < |w| - 1 ==> (w[i], w[i + 1]) in r
  }

  ghost predicate ClosedWalk(r: Relation, c: seq<File>) {
    |c| >= 2 && Walk(r, c) && c[0] == c[|c| - 1]
  }

  /** A closed walk that meets no vertex twice before it closes. */
  ghost predicate SimpleCycle(r: Relation, c: seq<File>) {
    ClosedWalk(r, c) && Distinct(c[..|c| - 1])
  }

  ghost predicate HasCycle(r: Relation) {
    exists c :: ClosedWalk(r, c)
  }

  /** An order without repetition in which every dependency stands before its dependents. */
  ghost predicate DepsFirst(r: Relation, s: seq<File>) {
    Distinct(s) && forall i, v :: 0 <= i < |s| && (s[i], v) in r ==> v in s[..i]
  }

  ghost predicate Reaches(r: Relation, a: File, b: File) {
    exists w :: Walk(r, w) && w[0] == a && w[|w| - 1] == b
  }

  // ------------------------------------------------------------------ order against cycle

  lemma {:induction false} WalkDescends(r: Relation, s: seq<File>, w: seq<File>, i: nat)
    requires DepsFirst(r, s) && Walk(r, w) && |w| >= 2
    requires i < |s| && w[0] == s[i]
    ensures w[|w| - 1] in s[..i]
    decreases |w|
  {
    assert (w[0], w[1]) in r;
    var j :| 0 <= j < i && s[j] == w[1];
    if |w| > 2 {
      var rest := w[1..];
      WalkDescends(r, s, rest, j);
    }
  }

  /** A dependencies-first order of all dependents rules out every cycle. */
  lemma OrderExcludesCycle(r: Relation, s: seq<File>)
    requires DepsFirst(r, s)
    requires forall u, v :: (u, v) in r ==> u in s
    ensures !HasCycle(r)
  {
    if HasCycle(r) {
      var c :| ClosedWalk(r, c);
      assert (c[0], c[1]) in r;
      var i :| 0 <= i < |s| && s[i] == c[0];
      WalkDescends(r, s, c, i);
      assert false;
    }
  }

  /** From `u` a walk leads to a cycle. */
  ghost predicate RunsIntoCycle(r: Relation, u: File) {
    exists c :: ClosedWalk(r, c) && Reaches(r, u, c[0])
  }

  /** The files from which no cycle can be reached. */
  ghost function CycleFree(r: Relation, all: set<File>): set<File> {
    set u | u in all && !RunsIntoCycle(r, u)
  }

  /** Nothing in a dependencies-first order runs into a cycle. */
  lemma OrderIsCycleFree(r: Relation, s: seq<File>, u: File)
    requires DepsFirst(r, s) && u in s
    ensures !RunsIntoCycle(r, u)
  {
    if RunsIntoCycle(r, u) {
      var c :| ClosedWalk(r, c) && Reaches(r, u, c[0]);
      var w :| Walk(r, w) && w[0] == u && w[|w| - 1] == c[0];
      var i :| 0 <= i < |s| && s[i] == u;
      if |w| >= 2 {
        WalkDescends(r, s, w, i);
      }
      var j :| 0 <= j < |s| && s[j] == c[0];
      WalkDescends(r, s, c, j);
      assert false;
    }
  }

  /** `u` depends on one of `stuck`. */
  ghost predicate WaitsFor(r: Relation, stuck: set<File>, u: File) {
    exists v :: v in stuck && (u, v) in r
  }

  lemma {:induction false} GrowWalk(r: Relation, stuck: set<File>, w: seq<File>)
    requires forall u {:trigger WaitsFor(r, stuck, u)} :: u in stuck ==> WaitsFor(r, stuck, u)
    requires Walk(r, w) && Distinct(w) && Elems(w) <= stuck
    ensures exists c :: SimpleCycle(r, c) && Reaches(r, w[0], c[0])
    decreases |stuck| - |w|
  {
    DistinctFits(w, stuck);
    var last := w[|w| - 1];
    assert WaitsFor(r, stuck, last);
    var v :| v in stuck && (last, v) in r;
    if v in w {
      CloseWalk(r, w, v);
      assert Walk(r, w[..IndexOf(w, v) + 1]);
      assert Reaches(r, w[0], v);
    } else {
      var longer := w + [v];
      assert Elems(longer) == Elems(w) + {v};
      DistinctFits(longer, stuck);
      GrowWalk(r, stuck, longer);
    }
  }

  /** A walk without repetition that returns to one of its vertices ends in a simple cycle. */
  lemma CloseWalk(r: Relation, w: seq<File>, v: File)
    requires Walk(r, w) && Distinct(w) && v in w && (w[|w| - 1], v) in r
    ensures SimpleCycle(r, w[IndexOf(w, v)..] + [v])
  {
    var i := IndexOf(w, v);
    var c := w[i..] + [v];
    assert c[..|c| - 1] == w[i..];
    assert Walk(r, c) by {
      forall k | 0 <= k < |c| - 1
        ensures (c[k], c[k + 1]) in r
      {
        assert k < |c| - 2 ==> c[k] == w[i + k] && c[k + 1] == w[i + k + 1];
      }
    }
  }

  /** Files that each wait for another one of them all run into a cycle. */
  lemma StuckFilesHaveCycle(r: Relation, stuck: set<File>)
    requires stuck != {}
    requires forall u {:trigger WaitsFor(r, stuck, u)} :: u in stuck ==> WaitsFor(r, stuck, u)
    ensures HasCycle(r) && forall u :: u in stuck ==> RunsIntoCycle(r, u)
  {
    forall u | u in stuck
      ensures RunsIntoCycle(r, u)
    {
      GrowWalk(r, stuck, [u]);
      var c :| SimpleCycle(r, c) && Reaches(r, u, c[0]);
      assert ClosedWalk(r, c);
    }
    var u :| u in stuck;
    assert RunsIntoCycle(r, u);
  }

  /** Appending a file whose dependencies are all present keeps the order. */
  lemma AppendKeepsOrder(r: Relation, s: seq<File>, u: File)
    requires DepsFirst(r, s) && u !in s
    requires forall v :: (u, v) in r ==> v in s
    ensures DepsFirst(r, s + [u])
  {
    var t := s + [u];
    forall i, v | 0 <= i < |t| && (t[i], v) in r
      ensures v in t[..i]
    {
      assert t[..i] == s[..i];
      if i < |s| {
        assert v in s[..i];
      } else {
        assert t[..i] == s;
      }
    }
  }
}
