/**
 The depth-first cycle search of the dependency analyzer.
 */
module CycleDetection {
  import opened Sequences
  import opened DependencyGraph

  /** The edge with which a reported list closes: from the file on top of the path back into the path. */
  function ClosingEdge(c: seq<File>): (File, File)
    requires |c| >= 2
  {
    (c[|c| - 2], c[|c| - 1])
  }

  ghost function ClosingEdges(cycles: seq<seq<File>>): Relation {
    set c | c in cycles && |c| >= 2 :: ClosingEdge(c)
  }

  /** How many of the lists close with the edge from `u` to `v`. */
  ghost function Reports(cycles: seq<seq<File>>, u: File, v: File): nat {
    if cycles == [] then 0
    else
      var c := cycles[|cycles| - 1];
      Reports(cycles[..|cycles| - 1], u, v) + if |c| >= 2 && ClosingEdge(c) == (u, v) then 1 else 0
  }

  lemma OneMoreReport(cycles: seq<seq<File>>, c: seq<File>, u: File, v: File)
    requires |c| >= 2
    ensures Reports(cycles + [c], u, v) == Reports(cycles, u, v) + if ClosingEdge(c) == (u, v) then 1 else 0
    ensures ClosingEdges(cycles + [c]) == ClosingEdges(cycles) + {ClosingEdge(c)}
  {
    assert (cycles + [c])[..|cycles|] == cycles;
    assert forall x :: x in cycles + [c] <==> x in cycles || x == c;
  }

  /** Each occurrence of `v` among the dependencies of `u` is reported, or none of them is. */
  ghost predicate AllOrNone(graph: Graph, cycles: seq<seq<File>>, u: File) {
    forall v :: Reports(cycles, u, v) == 0 || Reports(cycles, u, v) == multiset(graph.Deps(u))[v]
  }

  /** What the search knows about the files on the current path and the files it has finished. */
  ghost predicate Searched(r: Relation, path: seq<File>, cycles: seq<seq<File>>, finished: seq<File>) {
    && Distinct(path) && Distinct(finished) && (forall f :: f in path ==> f !in finished)
    && (path != [] ==> Walk(r, path))
    && (forall c :: c in cycles ==> SimpleCycle(r, c))
    && DepsFirst(r - ClosingEdges(cycles), finished)
  }

  lemma EnterFile(r: Relation, path: seq<File>, cycles: seq<seq<File>>, finished: seq<File>, node: File)
    requires Searched(r, path, cycles, finished)
    requires node !in path && node !in finished
    requires path != [] ==> (path[|path| - 1], node) in r
    ensures Searched(r, path + [node], cycles, finished)
  {
    hide DepsFirst, SimpleCycle, ClosingEdges;
  }

  lemma LeaveFile(r: Relation, path: seq<File>, cycles: seq<seq<File>>, finished: seq<File>, node: File)
    requires Searched(r, path + [node], cycles, finished)
    requires forall v :: (node, v) in r ==> v in finished || (node, v) in ClosingEdges(cycles)
    ensures Searched(r, path, cycles, finished + [node])
    ensures node !in path
  {
    var longer := path + [node];
    assert longer[|path|] == node && longer[..|path|] == path;
    assert node in longer;
    assert forall f :: f in path ==> f in longer;
    AppendKeepsOrder(r - ClosingEdges(cycles), finished, node);
    hide DepsFirst, SimpleCycle, ClosingEdges;
  }

  lemma ReportCycle(r: Relation, path: seq<File>, cycles: seq<seq<File>>, finished: seq<File>, v: File)
    requires Searched(r, path, cycles, finished)
    requires v in path && (path[|path| - 1], v) in r
    ensures
      var c := path[IndexOf(path, v)..] + [v];
      && Searched(r, path, cycles + [c], finished)
      && |c| >= 2 && ClosingEdge(c) == (path[|path| - 1], v)
  {
    CloseWalk(r, path, v);
    var c := path[IndexOf(path, v)..] + [v];
    OneMoreReport(cycles, c, v, v);
    FewerArcsKeepOrder(r - ClosingEdges(cycles), r - ClosingEdges(cycles + [c]), finished);
    hide DepsFirst, SimpleCycle, ClosingEdges;
  }

  lemma FewerArcsKeepOrder(r: Relation, fewer: Relation, s: seq<File>)
    requires DepsFirst(r, s) && fewer <= r
    ensures DepsFirst(fewer, s)
  {
  }

  /**
   What holds between calls: besides the above, which files are visited, and the reports so far:
   none for files not yet visited, all or none per edge for finished ones.
   */
  ghost predicate Consistent(graph: Graph, visited: set<File>, stack: set<File>,
    path: seq<File>, cycles: seq<seq<File>>, finished: seq<File>)
  {
    && Searched(graph.Arcs(), path, cycles, finished)
    && (forall f :: f in stack <==> f in path)
    && (forall f :: f in visited <==> f in path || f in finished)
    && visited <= graph.Universe()
    && (forall u, v :: u !in visited ==> Reports(cycles, u, v) == 0)
    && (forall u :: u in finished ==> AllOrNone(graph, cycles, u))
  }

  /** The reports about `files` are the same. */
  ghost predicate SameReports(before: seq<seq<File>>, after: seq<seq<File>>, files: set<File>) {
    forall u, v :: u in files ==> Reports(after, u, v) == Reports(before, u, v)
  }

  /**
   After the first `i` neighbors of `node`: one that lies on the path has been reported once for
   each time it was listed, every other one is finished.
   */
  ghost predicate Looked(graph: Graph, path: seq<File>, cycles: seq<seq<File>>, finished: seq<File>, node: File, i: nat)
    requires i <= |graph.Deps(node)|
  {
    && (forall j :: 0 <= j < i ==>
          graph.Deps(node)[j] in finished || (node, graph.Deps(node)[j]) in ClosingEdges(cycles))
    && (forall v :: Reports(cycles, node, v) == if v in path then multiset(graph.Deps(node)[..i])[v] else 0)
  }

  lemma EnterConsistent(graph: Graph, visited: set<File>, stack: set<File>,
    path: seq<File>, cycles: seq<seq<File>>, finished: seq<File>, node: File)
    requires Consistent(graph, visited, stack, path, cycles, finished)
    requires node in graph.Universe() && node !in visited
    requires path != [] ==> (path[|path| - 1], node) in graph.Arcs()
    ensures Consistent(graph, visited + {node}, stack + {node}, path + [node], cycles, finished)
    ensures Looked(graph, path + [node], cycles, finished, node, 0)
  {
    EnterFile(graph.Arcs(), path, cycles, finished, node);
    hide Searched, AllOrNone;
  }

  lemma LeaveConsistent(graph: Graph, visited: set<File>, stack: set<File>,
    path: seq<File>, cycles: seq<seq<File>>, finished: seq<File>, node: File)
    requires Consistent(graph, visited, stack, path + [node], cycles, finished)
    requires Looked(graph, path + [node], cycles, finished, node, |graph.Deps(node)|)
    ensures Consistent(graph, visited, stack - {node}, path, cycles, finished + [node])
  {
    var deps := graph.Deps(node);
    assert deps[..|deps|] == deps;
    forall v | (node, v) in graph.Arcs()
      ensures v in finished || (node, v) in ClosingEdges(cycles)
    {
      assert v in deps;
    }
    LeaveFile(graph.Arcs(), path, cycles, finished, node);
    hide Searched;
  }

  lemma LookedMore(graph: Graph, path: seq<File>, cycles: seq<seq<File>>, finished: seq<File>, node: File, i: nat,
    cycles': seq<seq<File>>, finished': seq<File>)
    requires i < |graph.Deps(node)| && Looked(graph, path, cycles, finished, node, i)
    requires cycles <= cycles' && finished <= finished' && SameReports(cycles, cycles', {node})
    requires graph.Deps(node)[i] in finished' && graph.Deps(node)[i] !in path
    ensures Looked(graph, path, cycles', finished', node, i + 1)
  {
    var deps := graph.Deps(node);
    assert deps[..i + 1] == deps[..i] + [deps[i]];
    assert ClosingEdges(cycles) <= ClosingEdges(cycles');
    hide ClosingEdges, Reports;
  }

  lemma ReportConsistent(graph: Graph, visited: set<File>, stack: set<File>,
    path: seq<File>, cycles: seq<seq<File>>, finished: seq<File>, node: File, i: nat)
    requires Consistent(graph, visited, stack, path, cycles, finished)
    requires path != [] && node == path[|path| - 1]
    requires i < |graph.Deps(node)| && Looked(graph, path, cycles, finished, node, i)
    requires graph.Deps(node)[i] in path
    ensures
      var v := graph.Deps(node)[i];
      var more := cycles + [path[IndexOf(path, v)..] + [v]];
      && Consistent(graph, visited, stack, path, more, finished)
      && Looked(graph, path, more, finished, node, i + 1)
      && SameReports(cycles, more, visited - {node})
  {
    var v := graph.Deps(node)[i];
    Arc(graph, node, i);
    ReportCycle(graph.Arcs(), path, cycles, finished, v);
    var c := path[IndexOf(path, v)..] + [v];
    Membership(graph, visited, stack, path, cycles, finished, node);
    hide Searched, IndexOf, Distinct, Reports, ClosingEdges, Looked, AllOrNone, SameReports, Graph.Arcs, Graph.Deps;
    OneMoreReport(cycles, c, v, v);
    forall u, w
      ensures Reports(cycles + [c], u, w) == Reports(cycles, u, w) + if u == node && w == v then 1 else 0
    {
      OneMoreReport(cycles, c, u, w);
    }
    ReportKeepsCounts(graph, visited, cycles, cycles + [c], finished, node, v);
    ReportLooked(graph, path, cycles, cycles + [c], finished, node, i);
  }

  lemma ReportKeepsCounts(graph: Graph, visited: set<File>, cycles: seq<seq<File>>, more: seq<seq<File>>,
    finished: seq<File>, node: File, v: File)
    requires forall u, w :: Reports(more, u, w) == Reports(cycles, u, w) + if u == node && w == v then 1 else 0
    requires node in visited && node !in finished
    ensures (forall u, w :: u !in visited ==> Reports(cycles, u, w) == 0) ==>
      forall u, w :: u !in visited ==> Reports(more, u, w) == 0
    ensures (forall u :: u in finished ==> AllOrNone(graph, cycles, u)) ==>
      forall u :: u in finished ==> AllOrNone(graph, more, u)
    ensures SameReports(cycles, more, visited - {node})
  {
    hide Reports;
    forall u | u in finished && AllOrNone(graph, cycles, u)
      ensures AllOrNone(graph, more, u)
    {
    }
  }

  lemma ReportLooked(graph: Graph, path: seq<File>, cycles: seq<seq<File>>, more: seq<seq<File>>,
    finished: seq<File>, node: File, i: nat)
    requires i < |graph.Deps(node)| && Looked(graph, path, cycles, finished, node, i)
    requires
      var v := graph.Deps(node)[i];
      && v in path && ClosingEdges(more) == ClosingEdges(cycles) + {(node, v)}
      && forall u, w :: Reports(more, u, w) == Reports(cycles, u, w) + if u == node && w == v then 1 else 0
    ensures Looked(graph, path, more, finished, node, i + 1)
  {
    hide Reports, ClosingEdges;
    var deps := graph.Deps(node);
    assert deps[..i + 1] == deps[..i] + [deps[i]];
  }

  /** The state that the recursive closure of `detectCycles` shares between its calls. */
  class CycleSearch {
    const graph: Graph
    var visited: set<File>
    var recursionStack: set<File>
    var path: seq<File>
    var cycles: seq<seq<File>>
    /** Files whose call has returned, in the order of return. */
    ghost var finished: seq<File>

    ghost predicate Valid()
      reads this
    {
      Consistent(graph, visited, recursionStack, path, cycles, finished)
    }

    constructor (graph: Graph)
      ensures this.graph == graph && Valid() && path == [] && cycles == [] && finished == [] && visited == {}
    {
      this.graph := graph;
      visited, recursionStack, path, cycles, finished := {}, {}, [], [], [];
    }

    /** Reports about files that were visited before the call are left alone. */
    method Dfs(node: File)
      requires Valid() && node in graph.Universe() && node !in visited
      requires path != [] ==> (path[|path| - 1], node) in graph.Arcs()
      modifies this
      ensures Valid() && path == old(path)
      ensures old(visited) + {node} <= visited
      ensures node in finished && old(finished) <= finished && old(cycles) <= cycles
      ensures SameReports(old(cycles), cycles, old(visited))
      decreases graph.Universe() - visited, 0
    {
      hide Consistent, Looked, SameReports, Reports, ClosingEdges, Searched, IndexOf;
      hide Graph.Deps, Graph.Arcs, Graph.Universe;
      EnterConsistent(graph, visited, recursionStack, path, cycles, finished, node);
      visited := visited + {node};
      recursionStack := recursionStack + {node};
      path := path + [node];

      VisitNeighbors(node);

      LeaveConsistent(graph, visited, recursionStack, old(path), cycles, finished, node);
      FewerFiles(old(cycles), cycles, old(visited) + {node} - {node}, old(visited));
      recursionStack := recursionStack - {node};
      path := path[..|path| - 1];
      finished := finished + [node];
    }

    /** The loop of `Dfs` over the neighbors of the file on top of the path. */
    method VisitNeighbors(node: File)
      requires Valid() && path != [] && node == path[|path| - 1]
      requires Looked(graph, path, cycles, finished, node, 0)
      modifies this
      ensures Valid() && path == old(path)
      ensures old(visited) <= visited && old(finished) <= finished && old(cycles) <= cycles
      ensures Looked(graph, path, cycles, finished, node, |graph.Deps(node)|)
      ensures SameReports(old(cycles), cycles, old(visited) - {node})
      decreases graph.Universe() - visited, 1
    {
      hide Consistent, Looked, SameReports, Reports, ClosingEdges, Searched, IndexOf;
      hide Graph.Deps, Graph.Arcs, Graph.Universe;
      var neighbors := graph.Deps(node);
      SameIsSame(cycles, visited - {node});
      for i := 0 to |neighbors|
        invariant Valid() && path == old(path)
        invariant old(visited) <= visited && old(finished) <= finished && old(cycles) <= cycles
        invariant Looked(graph, path, cycles, finished, node, i)
        invariant SameReports(old(cycles), cycles, old(visited) - {node})
      {
        var neighbor := neighbors[i];
        ghost var before, done := cycles, finished;
        ghost var known := visited;
        Arc(graph, node, i);
        Membership(graph, visited, recursionStack, path, cycles, finished, neighbor);
        Membership(graph, visited, recursionStack, path, cycles, finished, node);
        if neighbor !in visited {
          Dfs(neighbor);
          Membership(graph, visited, recursionStack, path, cycles, finished, neighbor);
          FewerFiles(before, cycles, known, {node});
          FewerFiles(before, cycles, known, old(visited) - {node});
          LookedMore(graph, path, before, done, node, i, cycles, finished);
        } else if neighbor in recursionStack {
          ReportConsistent(graph, visited, recursionStack, path, cycles, finished, node, i);
          var cycleStart := IndexOf(path, neighbor);
          var cycle := path[cycleStart..];
          cycles := cycles + [cycle + [neighbor]];
          FewerFiles(before, cycles, known - {node}, old(visited) - {node});
        } else {
          SameIsSame(cycles, {node});
          LookedMore(graph, path, cycles, finished, node, i, cycles, finished);
          SameIsSame(cycles, old(visited) - {node});
        }
        SameTwice(old(cycles), before, cycles, old(visited) - {node});
      }
    }
  }

  lemma Arc(graph: Graph, node: File, i: nat)
    requires i < |graph.Deps(node)|
    ensures (node, graph.Deps(node)[i]) in graph.Arcs() && graph.Deps(node)[i] in graph.Universe()
  {
  }

  lemma Membership(graph: Graph, visited: set<File>, stack: set<File>,
    path: seq<File>, cycles: seq<seq<File>>, finished: seq<File>, f: File)
    requires Consistent(graph, visited, stack, path, cycles, finished)
    ensures f in stack <==> f in path
    ensures f in visited <==> f in path || f in finished
    ensures f in finished ==> f !in path
    ensures visited <= graph.Universe()
  {
  }

  lemma SameIsSame(cycles: seq<seq<File>>, files: set<File>)
    ensures SameReports(cycles, cycles, files)
  {
  }

  lemma SameTwice(a: seq<seq<File>>, b: seq<seq<File>>, c: seq<seq<File>>, files: set<File>)
    requires SameReports(a, b, files) && SameReports(b, c, files)
    ensures SameReports(a, c, files)
  {
    hide Reports;
  }

  lemma FewerFiles(a: seq<seq<File>>, b: seq<seq<File>>, files: set<File>, fewer: set<File>)
    requires SameReports(a, b, files) && fewer <= files
    ensures SameReports(a, b, fewer)
  {
    hide Reports;
  }

  // ------------------------------------------------------------------ the result

  /** The closed walk runs over the closing edge of a list in `cycles`. */
  ghost predicate IsReported(w: seq<File>, cycles: seq<seq<File>>) {
    exists c, i :: c in cycles && |c| >= 2 && 0 <= i < |w| - 1 && (w[i], w[i + 1]) == (c[|c| - 2], c[|c| - 1])
  }

  /** When all files are finished, a closed walk that avoids every closing edge would go round an order. */
  lemma EveryCycleIsReported(graph: Graph, cycles: seq<seq<File>>, finished: seq<File>, w: seq<File>)
    requires Searched(graph.Arcs(), [], cycles, finished) && ClosedWalk(graph.Arcs(), w)
    requires forall f :: f in graph.nodes.entries ==> f in finished
    ensures IsReported(w, cycles)
  {
    var rest := graph.Arcs() - ClosingEdges(cycles);
    OrderExcludesCycle(rest, finished);
    hide Searched, DepsFirst;
    assert !ClosedWalk(rest, w);
    var i :| 0 <= i < |w| - 1 && (w[i], w[i + 1]) in ClosingEdges(cycles);
    var c :| c in cycles && |c| >= 2 && (w[i], w[i + 1]) == ClosingEdge(c);
  }

  datatype CycleDetectionResult = CycleDetectionResult(hasCycles: bool, cycles: seq<seq<File>>, path: seq<File>)

  /**
   `detectCycles`: every reported list is a simple cycle of the graph, every closed walk of the
   graph runs over the closing edge of a reported list, and an edge that closes one is reported
   as often as it is listed. So nothing is reported exactly when the graph has no cycle.
   */
  method DetectCycles(graph: Graph) returns (r: CycleDetectionResult)
    ensures r.hasCycles <==> HasCycle(graph.Arcs())
    ensures r.hasCycles <==> r.cycles != []
    ensures forall c :: c in r.cycles ==> SimpleCycle(graph.Arcs(), c)
    ensures forall w :: ClosedWalk(graph.Arcs(), w) ==> IsReported(w, r.cycles)
    ensures forall u, v :: Reports(r.cycles, u, v) == 0 || Reports(r.cycles, u, v) == multiset(graph.Deps(u))[v]
    ensures r.path == []
  {
    hide Consistent, Graph.Deps, Graph.Arcs, Graph.Universe, IsReported, Reports, ClosedWalk, SimpleCycle, HasCycle;
    var search := new CycleSearch(graph);
    for i := 0 to |graph.nodes.keys|
      invariant fresh(search) && search.graph == graph && search.Valid() && search.path == []
      invariant forall j :: 0 <= j < i ==> graph.nodes.keys[j] in search.visited
    {
      var node := graph.nodes.keys[i];
      KeyInUniverse(graph, i);
      if node !in search.visited {
        search.Dfs(node);
      }
    }
    r := CycleDetectionResult(|search.cycles| > 0, search.cycles, search.path);
    SearchResult(graph, search.visited, search.recursionStack, search.cycles, search.finished);
  }

  lemma KeyInUniverse(graph: Graph, i: nat)
    requires i < |graph.nodes.keys|
    ensures graph.nodes.keys[i] in graph.Universe()
  {
    assert graph.nodes.keys[i] in Elems(graph.nodes.keys);
  }

  lemma SearchResult(graph: Graph, visited: set<File>, stack: set<File>, cycles: seq<seq<File>>, finished: seq<File>)
    requires Consistent(graph, visited, stack, [], cycles, finished)
    requires forall j :: 0 <= j < |graph.nodes.keys| ==> graph.nodes.keys[j] in visited
    ensures cycles != [] <==> HasCycle(graph.Arcs())
    ensures forall c :: c in cycles ==> SimpleCycle(graph.Arcs(), c)
    ensures forall w :: ClosedWalk(graph.Arcs(), w) ==> IsReported(w, cycles)
    ensures forall u, v :: Reports(cycles, u, v) == 0 || Reports(cycles, u, v) == multiset(graph.Deps(u))[v]
  {
    forall f | f in graph.nodes.entries
      ensures f in finished
    {
      assert f in Elems(graph.nodes.keys);
    }
    forall w | ClosedWalk(graph.Arcs(), w)
      ensures IsReported(w, cycles)
    {
      EveryCycleIsReported(graph, cycles, finished, w);
    }
    if cycles != [] {
      assert cycles[0] in cycles;
      assert ClosedWalk(graph.Arcs(), cycles[0]);
    }
    forall u, v
      ensures Reports(cycles, u, v) == 0 || Reports(cycles, u, v) == multiset(graph.Deps(u))[v]
    {
      if u in visited {
        assert AllOrNone(graph, cycles, u);
      }
    }
  }
}
