/**
 Kahn's algorithm as the dependency analyzer runs it, on the edge list.
 */
module TopologicalSorting {
  import opened OrderedMaps
  import opened Sequences
  import opened DependencyGraph
  import opened CycleDetection

  datatype SortResult =
    | Sorted(order: seq<File>)
    | Cyclic(detectedCycles: seq<seq<File>>, nodesProcessed: nat, totalNodes: nat)

  /** Every file the sort has to place: the keys of the map and both ends of every edge. */
  ghost function AllFiles(keys: seq<File>, es: Edges): set<File> {
    Elems(keys) + (set e | e in es :: e.0) + (set e | e in es :: e.1)
  }

  /** The number of edges, repetitions included, that make `u` wait for a file outside `done`. */
  ghost function Blocked(es: Edges, u: File, done: set<File>): nat {
    if es == [] then 0
    else
      var e := es[|es| - 1];
      Blocked(es[..|es| - 1], u, done) + if e.0 == u && e.1 !in done then 1 else 0
  }

  lemma BlockedStep(es: Edges, k: nat, u: File, done: set<File>)
    requires k < |es|
    ensures Blocked(es[..k + 1], u, done)
         == Blocked(es[..k], u, done) + if es[k].0 == u && es[k].1 !in done then 1 else 0
  {
    assert es[..k + 1][..k] == es[..k];
  }

  lemma {:induction false} BlockedPrefix(es: Edges, k: nat, u: File, done: set<File>)
    requires k <= |es|
    ensures Blocked(es[..k], u, done) <= Blocked(es, u, done)
    decreases |es| - k
  {
    if k == |es| {
      assert es[..k] == es;
    } else {
      BlockedStep(es, k, u, done);
      BlockedPrefix(es, k + 1, u, done);
    }
  }

  /** A file waits for nothing exactly when the targets of all its edges are done. */
  lemma {:induction false} BlockedZero(es: Edges, u: File, done: set<File>)
    ensures Blocked(es, u, done) == 0 <==> forall e :: e in es && e.0 == u ==> e.1 in done
  {
    if es != [] {
      var front, last := es[..|es| - 1], es[|es| - 1];
      BlockedZero(front, u, done);
      assert es == front + [last];
    }
  }

  /** The files that are in the result or in the queue are those that wait for nothing. */
  ghost predicate Ready(inDegree: map<File, int>, result: seq<File>, queue: seq<File>) {
    && Distinct(result + queue)
    && (forall u :: u in result + queue ==> u in inDegree)
    && (forall u :: u in inDegree ==> (u in result + queue <==> inDegree[u] == 0))
  }

  ghost predicate Counts(es: Edges, inDegree: map<File, int>, done: set<File>) {
    forall u :: u in inDegree ==> inDegree[u] == Blocked(es, u, done)
  }

  lemma AllFilesStep(keys: seq<File>, es: Edges, k: nat)
    requires k < |es|
    ensures AllFiles(keys, es[..k + 1]) == AllFiles(keys, es[..k]) + {es[k].0, es[k].1}
  {
    assert es[..k + 1] == es[..k] + [es[k]];
  }

  /** What the counting loop does with one edge. */
  function CountEdge(inDegree: OrderedMap<File, int>, e: (File, File)): OrderedMap<File, int> {
    var counted := inDegree.Set(e.0, inDegree.GetOr(e.0, 0) + 1);
    if counted.Has(e.1) then counted else counted.Set(e.1, 0)
  }

  ghost predicate Counted(keys: seq<File>, es: Edges, inDegree: OrderedMap<File, int>) {
    && inDegree.entries.Keys == AllFiles(keys, es)
    && (forall u :: Blocked(es, u, {}) == inDegree.GetOr(u, 0))
  }

  lemma CountEdgeEffect(inDegree: OrderedMap<File, int>, e: (File, File))
    ensures CountEdge(inDegree, e).entries.Keys == inDegree.entries.Keys + {e.0, e.1}
    ensures forall u :: CountEdge(inDegree, e).GetOr(u, 0) == inDegree.GetOr(u, 0) + if u == e.0 then 1 else 0
  {
    hide MapData.Valid, MapData.Set, Distinct, Elems;
    var n := inDegree.GetOr(e.0, 0) + 1;
    var counted := inDegree.Set(e.0, n);
    forall u
      ensures CountEdge(inDegree, e).GetOr(u, 0) == inDegree.GetOr(u, 0) + if u == e.0 then 1 else 0
    {
      SetGet(inDegree, e.0, n, u, 0);
      SetGet(counted, e.1, 0, u, 0);
    }
  }

  lemma CountEdgeStep(keys: seq<File>, es: Edges, k: nat, inDegree: OrderedMap<File, int>)
    requires k < |es| && Counted(keys, es[..k], inDegree)
    ensures Counted(keys, es[..k + 1], CountEdge(inDegree, es[k]))
  {
    AllFilesStep(keys, es, k);
    var next := CountEdge(inDegree, es[k]);
    CountEdgeEffect(inDegree, es[k]);
    forall u
      ensures Blocked(es[..k + 1], u, {}) == next.GetOr(u, 0)
    {
      BlockedStep(es, k, u, {});
      assert Blocked(es[..k], u, {}) == inDegree.GetOr(u, 0);
    }
  }

  /** The in-degrees: how many edges leave each file. */
  method CountDependencies(keys: seq<File>, es: Edges) returns (inDegree: OrderedMap<File, int>)
    requires Distinct(keys)
    ensures inDegree.entries.Keys == AllFiles(keys, es)
    ensures Counts(es, inDegree.entries, {})
  {
    inDegree := MapData(keys, map f | f in keys :: 0);
    assert es[..0] == [];
    for i := 0 to |es|
      invariant Counted(keys, es[..i], inDegree)
    {
      CountEdgeStep(keys, es, i, inDegree);
      inDegree := CountEdge(inDegree, es[i]);
    }
    assert es[..|es|] == es;
    forall u | u in inDegree.entries
      ensures inDegree.entries[u] == Blocked(es, u, {})
    {
      assert inDegree.GetOr(u, 0) == Blocked(es, u, {});
    }
  }

  /** The files that wait for nothing, in the order of the map. */
  method InitialQueue(inDegree: OrderedMap<File, int>) returns (queue: seq<File>)
    ensures Ready(inDegree.entries, [], queue)
  {
    queue := [];
    var ids := inDegree.keys;
    for i := 0 to |ids|
      invariant Distinct(queue) && forall u :: u in queue ==> u in ids[..i]
      invariant forall u :: u in ids[..i] ==> (u in queue <==> inDegree.GetOr(u, 0) == 0)
    {
      assert ids[..i + 1] == ids[..i] + [ids[i]];
      assert ids[i] !in ids[..i];
      assert ids[i] in Elems(ids);
      if inDegree.GetOr(ids[i], 0) == 0 {
        queue := queue + [ids[i]];
      }
    }
    assert ids[..|ids|] == ids;
    assert forall u :: u in inDegree.entries <==> u in Elems(ids);
    assert [] + queue == queue;
  }

  /** In-degrees while the edges into `node` are being released, the first `k` of them already. */
  ghost predicate Releasing(es: Edges, k: nat, inDegree: map<File, int>, done: set<File>, node: File)
    requires k <= |es|
  {
    forall u :: u in inDegree ==> inDegree[u] == StillBlocked(es, k, u, done, node)
  }

  ghost function StillBlocked(es: Edges, k: nat, u: File, done: set<File>, node: File): int
    requires k <= |es|
  {
    Blocked(es[..k], u, done + {node}) + Blocked(es, u, done) - Blocked(es[..k], u, done)
  }

  lemma StillBlockedStep(es: Edges, k: nat, u: File, done: set<File>, node: File)
    requires k < |es| && node !in done
    ensures
      var released := es[k] == (u, node);
      && StillBlocked(es, k + 1, u, done, node) == StillBlocked(es, k, u, done, node) - (if released then 1 else 0)
      && (released ==> StillBlocked(es, k, u, done, node) > 0)
  {
    BlockedStep(es, k, u, done);
    BlockedStep(es, k, u, done + {node});
    BlockedPrefix(es, k + 1, u, done);
  }

  lemma ReleaseStep(es: Edges, k: nat, inDegree: map<File, int>, done: set<File>, node: File)
    requires k < |es| && Releasing(es, k, inDegree, done, node) && node !in done
    requires es[k].0 in inDegree
    ensures
      var from := es[k].0;
      if es[k].1 == node then
        inDegree[from] > 0 && Releasing(es, k + 1, inDegree[from := inDegree[from] - 1], done, node)
      else Releasing(es, k + 1, inDegree, done, node)
  {
    var from := es[k].0;
    StillBlockedStep(es, k, from, done, node);
    forall u | u in inDegree && u != from
      ensures StillBlocked(es, k + 1, u, done, node) == StillBlocked(es, k, u, done, node)
    {
      StillBlockedStep(es, k, u, done, node);
    }
  }

  /** One released edge: the file joins the queue when it was its last. */
  lemma ReadyStep(inDegree: map<File, int>, result: seq<File>, queue: seq<File>, from: File)
    requires Ready(inDegree, result, queue) && from in inDegree && inDegree[from] > 0
    ensures
      var n := inDegree[from] - 1;
      from !in result + queue && Ready(inDegree[from := n], result, if n == 0 then queue + [from] else queue)
  {
    assert result + (queue + [from]) == (result + queue) + [from];
  }

  /** The loop over the edges after `node` has been moved to the result. */
  method ReleaseDependents(es: Edges, inDegree0: map<File, int>, result: seq<File>, queue0: seq<File>, node: File)
    returns (inDegree: map<File, int>, queue: seq<File>)
    requires result != [] && node == result[|result| - 1] && node !in result[..|result| - 1]
    requires Ready(inDegree0, result, queue0) && Counts(es, inDegree0, Elems(result[..|result| - 1]))
    requires forall e :: e in es ==> e.0 in inDegree0
    ensures inDegree.Keys == inDegree0.Keys && queue0 <= queue
    ensures Ready(inDegree, result, queue) && Counts(es, inDegree, Elems(result))
  {
    ghost var done := Elems(result[..|result| - 1]);
    assert Elems(result) == done + {node};
    inDegree, queue := inDegree0, queue0;
    for k := 0 to |es|
      invariant inDegree.Keys == inDegree0.Keys && queue0 <= queue
      invariant Ready(inDegree, result, queue) && Releasing(es, k, inDegree, done, node)
    {
      ReleaseStep(es, k, inDegree, done, node);
      var (from, to) := es[k];
      if to == node {
        ReadyStep(inDegree, result, queue, from);
      }
      if to == node && from !in result {
        inDegree := inDegree[from := inDegree[from] - 1];
        if inDegree[from] == 0 {
          queue := queue + [from];
        }
      }
    }
    assert es[..|es|] == es;
  }

  lemma BlockedFileWaits(es: Edges, arcs: Relation, all: set<File>, done: set<File>, u: File)
    requires arcs == set e | e in es
    requires forall e :: e in es ==> e.1 in all
    requires Blocked(es, u, done) > 0
    ensures WaitsFor(arcs, all - done, u)
  {
    BlockedZero(es, u, done);
    var e :| e in es && e.0 == u && e.1 !in done;
    assert e == (u, e.1);
  }

  /** Files left over when the queue runs dry wait for each other. */
  lemma LeftoverIsStuck(es: Edges, arcs: Relation, all: set<File>, done: set<File>)
    requires arcs == set e | e in es
    requires forall e :: e in es ==> e.1 in all
    requires forall u :: u in all && u !in done ==> Blocked(es, u, done) > 0
    requires done <= all && done != all
    ensures HasCycle(arcs) && forall u :: u in all - done ==> RunsIntoCycle(arcs, u)
  {
    var stuck := all - done;
    forall u | u in stuck
      ensures WaitsFor(arcs, stuck, u)
    {
      BlockedFileWaits(es, arcs, all, done, u);
    }
    assert stuck != {} by {
      assert all == done + stuck;
    }
    StuckFilesHaveCycle(arcs, stuck);
  }

  /** A file whose count has dropped to zero may follow the result. */
  lemma NextIsFree(graph: Graph, inDegree: map<File, int>, result: seq<File>, queue: seq<File>)
    requires queue != [] && Ready(inDegree, result, queue) && Counts(graph.edges, inDegree, Elems(result))
    requires DepsFirst(graph.EdgeArcs(), result)
    ensures DepsFirst(graph.EdgeArcs(), result + [queue[0]]) && queue[0] !in result
    ensures Ready(inDegree, result + [queue[0]], queue[1..])
  {
    var es, arcs := graph.edges, graph.EdgeArcs();
    var node := queue[0];
    assert (result + queue)[|result|] == node;
    assert node in result + queue;
    assert forall i :: 0 <= i < |result| ==> (result + queue)[i] == result[i];
    BlockedZero(es, node, Elems(result));
    forall v | (node, v) in arcs
      ensures v in result
    {
      assert (node, v) in es;
      assert v in Elems(result);
    }
    AppendKeepsOrder(arcs, result, node);
    assert (result + [node]) + queue[1..] == result + queue;
  }

  lemma ProcessedFit(inDegree: map<File, int>, result: seq<File>, queue: seq<File>)
    requires Ready(inDegree, result, queue)
    ensures Distinct(result) && Elems(result) <= inDegree.Keys && |result| <= |inDegree.Keys| == |inDegree|
    ensures |result| == |inDegree| ==> Elems(result) == inDegree.Keys
  {
    forall u | u in result
      ensures u in inDegree
    {
      assert u in result + queue;
    }
    assert forall i :: 0 <= i < |result| ==> (result + queue)[i] == result[i];
    DistinctFits(result, inDegree.Keys);
  }

  /** When the queue is empty, the number of processed files tells whether there is a cycle. */
  lemma OutcomeIsRight(graph: Graph, inDegree: map<File, int>, result: seq<File>)
    requires Ready(inDegree, result, []) && Counts(graph.edges, inDegree, Elems(result))
    requires inDegree.Keys == AllFiles(graph.nodes.keys, graph.edges) && DepsFirst(graph.EdgeArcs(), result)
    ensures |result| <= |inDegree|
    ensures |result| != |inDegree| <==> HasCycle(graph.EdgeArcs())
    ensures |result| == |inDegree| ==> Elems(result) == inDegree.Keys
    ensures Elems(result) == CycleFree(graph.EdgeArcs(), inDegree.Keys) && |result| == |Elems(result)|
  {
    var arcs := graph.EdgeArcs();
    ProcessedFit(inDegree, result, []);
    DistinctCount(result);
    forall u | u in result
      ensures !RunsIntoCycle(arcs, u)
    {
      OrderIsCycleFree(arcs, result, u);
    }
    if |result| != |inDegree| {
      assert result + [] == result;
      LeftoverIsStuck(graph.edges, arcs, inDegree.Keys, Elems(result));
    } else {
      forall u, v | (u, v) in arcs
        ensures u in result
      {
        assert u in Elems(result);
      }
      OrderExcludesCycle(arcs, result);
    }
  }

  /**
   `topologicalSort`: it succeeds exactly when the edges have no cycle, and then lists every
   file once with its dependencies before it. Otherwise it has processed exactly the files from
   which no cycle can be reached.
   */
  method TopologicalSort(graph: Graph) returns (r: SortResult)
    ensures r.Sorted? <==> !HasCycle(graph.EdgeArcs())
    ensures r.Sorted? ==> DepsFirst(graph.EdgeArcs(), r.order)
                          && Elems(r.order) == AllFiles(graph.nodes.keys, graph.edges)
    ensures r.Cyclic? ==> r.nodesProcessed < r.totalNodes == |AllFiles(graph.nodes.keys, graph.edges)|
    ensures r.Cyclic? ==> r.nodesProcessed == |CycleFree(graph.EdgeArcs(), AllFiles(graph.nodes.keys, graph.edges))|
    ensures r.Cyclic? ==> forall c :: c in r.detectedCycles ==> SimpleCycle(graph.Arcs(), c)
    ensures r.Cyclic? ==> forall w :: ClosedWalk(graph.Arcs(), w) ==> IsReported(w, r.detectedCycles)
    ensures graph.Arcs() == graph.EdgeArcs() ==> (r.Cyclic? <==> HasCycle(graph.Arcs()))
                                                 && (r.Cyclic? ==> r.detectedCycles != [])
  {
    ghost var arcs := graph.EdgeArcs();
    var es := graph.edges;
    assert Elems<File>([]) == {} && DepsFirst(arcs, []);
    assert forall e :: e in es ==> e.0 in AllFiles(graph.nodes.keys, es);
    hide *;
    var counted := CountDependencies(graph.nodes.keys, es);
    var inDegree := counted.entries;
    var queue := InitialQueue(counted);
    var result: seq<File> := [];
    while queue != []
      invariant inDegree.Keys == AllFiles(graph.nodes.keys, es)
      invariant Ready(inDegree, result, queue) && Counts(es, inDegree, Elems(result)) && DepsFirst(arcs, result)
      decreases |inDegree.Keys| - |result|
    {
      var node := queue[0];
      NextIsFree(graph, inDegree, result, queue);
      assert (result + [node])[..|result|] == result;
      result, queue := result + [node], queue[1..];
      ProcessedFit(inDegree, result, queue);
      inDegree, queue := ReleaseDependents(es, inDegree, result, queue, node);
    }
    OutcomeIsRight(graph, inDegree, result);
    if |result| != |inDegree| {
      var cycles := DetectCycles(graph);
      r := Cyclic(cycles.cycles, |result|, |inDegree|);
    } else {
      r := Sorted(result);
    }
  }
}
