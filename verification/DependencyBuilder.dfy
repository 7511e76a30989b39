/**
 The builder of the dependency graph, and why the two forms of a built graph, adjacency map
 and edge list, hold the same relation.
 */
module DependencyBuilding {
  import opened CycleDetection
  import opened DependencyGraph
  import opened Options
  import opened OrderedMaps
  import opened Sequences
  import opened TopologicalSorting

  /** The targets of the edges that leave `u`, in edge order and with repetitions. */
  function Targets(es: Edges, u: File): seq<File> {
    if es == [] then []
    else
      var e := es[|es| - 1];
      Targets(es[..|es| - 1], u) + if e.0 == u then [e.1] else []
  }

  /** The adjacency map is the projection of the edge list onto the files it mentions. */
  ghost predicate Projects(nodes: OrderedMap<File, seq<File>>, es: Edges) {
    && (forall u :: nodes.GetOr(u, []) == Targets(es, u))
    && (forall i :: 0 <= i < |es| ==> nodes.Has(es[i].0) && nodes.Has(es[i].1))
  }

  lemma {:induction false} TargetsAreEdges(es: Edges, u: File, v: File)
    ensures v in Targets(es, u) <==> (u, v) in es
  {
    if es != [] {
      TargetsAreEdges(es[..|es| - 1], u, v);
      assert es == es[..|es| - 1] + [es[|es| - 1]];
    }
  }

  /** In a built graph the map and the list hold the same relation. */
  lemma BuiltRelationsAgree(g: Graph)
    requires Projects(g.nodes, g.edges)
    ensures g.Arcs() == g.EdgeArcs()
  {
    forall u, v
      ensures (u, v) in g.Arcs() <==> (u, v) in g.edges
    {
      TargetsAreEdges(g.edges, u, v);
      assert g.nodes.GetOr(u, []) == Targets(g.edges, u);
    }
    assert forall a :: a in g.Arcs() <==> (a.0, a.1) in g.edges;
  }

  lemma EndsAreNodes(g: Graph)
    requires Projects(g.nodes, g.edges)
    ensures AllFiles(g.nodes.keys, g.edges) == g.nodes.entries.Keys
  {
    assert forall e :: e in g.edges ==> g.nodes.Has(e.0) && g.nodes.Has(e.1);
    assert Elems(g.nodes.keys) == g.nodes.entries.Keys;
  }

  function AddArc(nodes: OrderedMap<File, seq<File>>, e: (File, File)): OrderedMap<File, seq<File>> {
    var added := nodes.Set(e.0, nodes.GetOr(e.0, []) + [e.1]);
    if added.Has(e.1) then added else added.Set(e.1, [])
  }

  lemma AddArcEffect(nodes: OrderedMap<File, seq<File>>, e: (File, File))
    ensures AddArc(nodes, e).entries.Keys == nodes.entries.Keys + {e.0, e.1}
    ensures forall u :: AddArc(nodes, e).GetOr(u, []) == nodes.GetOr(u, []) + if u == e.0 then [e.1] else []
  {
  }

  lemma ProjectsStep(nodes: OrderedMap<File, seq<File>>, next: OrderedMap<File, seq<File>>, es: Edges, k: nat)
    requires k < |es| && Projects(nodes, es[..k])
    requires next.entries.Keys == nodes.entries.Keys + {es[k].0, es[k].1}
    requires forall u :: next.GetOr(u, []) == nodes.GetOr(u, []) + if u == es[k].0 then [es[k].1] else []
    ensures Projects(next, es[..k + 1])
  {
    var longer := es[..k + 1];
    assert longer[..k] == es[..k];
    forall i | 0 <= i < |longer|
      ensures next.Has(longer[i].0) && next.Has(longer[i].1)
    {
      assert i < k ==> nodes.Has(es[..k][i].0) && nodes.Has(es[..k][i].1);
    }
    forall u
      ensures next.GetOr(u, []) == Targets(longer, u)
    {
      assert nodes.GetOr(u, []) == Targets(es[..k], u);
    }
  }

  function EdgesFrom(file: File, imports: seq<File>): Edges {
    seq(|imports|, i requires 0 <= i < |imports| => (file, imports[i]))
  }

  class DependencyGraphBuilder {
    var nodes: OrderedMap<File, seq<File>>
    var edges: Edges
    var builtGraph: Option<Graph>

    /** A cached graph is always a built one, though edges may have been added since. */
    ghost predicate Valid()
      reads this
    {
      builtGraph.Some? ==> Projects(builtGraph.value.nodes, builtGraph.value.edges)
    }

    constructor ()
      ensures Valid() && nodes.keys == [] && edges == [] && builtGraph.None?
    {
      nodes, edges, builtGraph := MapData([], map[]), [], None;
    }

    method AddFile(file: File, imports: Option<seq<File>>)
      requires Valid()
      modifies this
      ensures Valid() && builtGraph.None?
      ensures imports.Some? ==> nodes.entries == old(nodes.entries)[file := imports.value]
      ensures imports.None? ==> nodes.entries == old(nodes.entries)[file := old(nodes.GetOr(file, []))]
      ensures edges == old(edges) + if imports.Some? then EdgesFrom(file, imports.value) else []
    {
      builtGraph := None;
      if imports.Some? {
        nodes := nodes.Set(file, imports.value);
        edges := edges + EdgesFrom(file, imports.value);
      } else if !nodes.Has(file) {
        nodes := nodes.Set(file, []);
      }
    }

    /** The cache is left alone, so a graph built before does not show the new edge. */
    method AddDependency(from: File, to: File)
      requires Valid()
      modifies this
      ensures Valid() && builtGraph == old(builtGraph)
      ensures edges == old(edges) + [(from, to)]
      ensures
        var deps := old(nodes.GetOr(from, []));
        nodes.entries == old(nodes.entries)[from := if to in deps then deps else deps + [to]]
    {
      var deps := nodes.GetOr(from, []);
      if to !in deps {
        nodes := nodes.Set(from, deps + [to]);
      }
      edges := edges + [(from, to)];
    }

    /**
     `resolve` stands for `resolveImportPath`, which only reads the builder; its results are taken
     to be normalised ids, as all files are.
     */
    method Build(resolve: (File, File) -> File) returns (g: Graph)
      requires Valid()
      modifies this`builtGraph
      ensures Valid() && Projects(g.nodes, g.edges) && builtGraph == Some(g)
      ensures old(builtGraph.Some?) ==> g == old(builtGraph.value)
      ensures old(builtGraph.None?) ==>
        && |g.edges| == |edges|
        && (forall i :: 0 <= i < |edges| ==> g.edges[i] == (edges[i].0, resolve(edges[i].0, edges[i].1)))
        && g.nodes.entries.Keys == AllFiles(nodes.keys, g.edges)
    {
      if builtGraph.Some? {
        return builtGraph.value;
      }
      var es := edges;
      var normalizedEdges := seq(|es|, i requires 0 <= i < |es| => (es[i].0, resolve(es[i].0, es[i].1)));
      var normalizedNodes := BuildNodes(nodes.keys, normalizedEdges);
      g := Graph(normalizedNodes, normalizedEdges);
      builtGraph := Some(g);
    }

    /**
     `getTopologicalSort`: on a built graph the sort fails exactly when there is a cycle, the
     failure then reports one list at least for every closed walk, and a success lists exactly the
     nodes of the graph.
     */
    method GetTopologicalSort(resolve: (File, File) -> File) returns (g: Graph, r: SortResult)
      requires Valid()
      modifies this`builtGraph
      ensures Valid() && builtGraph == Some(g) && Projects(g.nodes, g.edges)
      ensures r.Cyclic? <==> HasCycle(g.Arcs())
      ensures r.Cyclic? ==> r.detectedCycles != [] && forall c :: c in r.detectedCycles ==> SimpleCycle(g.Arcs(), c)
      ensures r.Cyclic? ==> forall w :: ClosedWalk(g.Arcs(), w) ==> IsReported(w, r.detectedCycles)
      ensures r.Cyclic? ==> r.nodesProcessed == |CycleFree(g.Arcs(), g.nodes.entries.Keys)|
                            && r.totalNodes == |g.nodes.entries.Keys|
      ensures r.Sorted? ==> DepsFirst(g.Arcs(), r.order) && Elems(r.order) == g.nodes.entries.Keys
    {
      g := Build(resolve);
      BuiltRelationsAgree(g);
      EndsAreNodes(g);
      r := TopologicalSort(g);
    }

    /** The second half of `build`: nodes first, then every edge in order. */
    static method BuildNodes(keys: seq<File>, es: Edges) returns (nodes: OrderedMap<File, seq<File>>)
      requires Distinct(keys)
      ensures Projects(nodes, es) && nodes.entries.Keys == AllFiles(keys, es)
    {
      nodes := MapData(keys, map f | f in keys :: []);
      for k := 0 to |es|
        invariant Projects(nodes, es[..k]) && nodes.entries.Keys == AllFiles(keys, es[..k])
      {
        AddArcEffect(nodes, es[k]);
        ProjectsStep(nodes, AddArc(nodes, es[k]), es, k);
        AllFilesStep(keys, es, k);
        nodes := AddArc(nodes, es[k]);
      }
      assert es[..|es|] == es;
    }
  }
}
