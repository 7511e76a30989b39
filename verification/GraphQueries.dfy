/**
 Reachability and longest paths, as the dependency analyzer and the graph builder compute them.
 */
module GraphQueries {
  import opened Sequences
  import opened DependencyGraph

  // ------------------------------------------------------------------ transitive dependencies

  lemma {:induction false} ClosedSetHoldsWalk(r: Relation, s: set<File>, w: seq<File>)
    requires Walk(r, w) && w[0] in s
    requires forall u, v :: u in s && (u, v) in r ==> v in s
    ensures w[|w| - 1] in s
  {
    if |w| > 1 {
      assert (w[0], w[1]) in r;
      ClosedSetHoldsWalk(r, s, w[1..]);
    }
  }

  lemma ReachesStep(r: Relation, a: File, b: File, c: File)
    requires Reaches(r, a, b) && (b, c) in r
    ensures Reaches(r, a, c)
  {
    var w :| Walk(r, w) && w[0] == a && w[|w| - 1] == b;
    assert Walk(r, w + [c]) && (w + [c])[|w|] == c;
  }

  /** The state of the worklist: everything seen is reachable, and visited files are expanded. */
  ghost predicate Explored(graph: Graph, file: File, visited: set<File>, stack: seq<File>, result: set<File>) {
    && (forall v :: v in result <==> v != file && (v in visited || v in stack))
    && (forall v :: v in visited || v in stack ==> Reaches(graph.Arcs(), file, v))
    && (forall u, v :: u in visited && (u, v) in graph.Arcs() ==> v in visited || v in stack)
    && (forall v :: v in visited || v in stack ==> v in graph.Universe() + {file})
    && (file in visited || stack == [file])
  }

  lemma StartExploring(graph: Graph, file: File)
    ensures Explored(graph, file, {}, [file], {})
  {
    assert Walk(graph.Arcs(), [file]);
  }

  lemma ExploredIsReachable(graph: Graph, file: File, visited: set<File>, result: set<File>)
    requires Explored(graph, file, visited, [], result)
    ensures forall v :: v in result <==> v != file && Reaches(graph.Arcs(), file, v)
  {
    forall v | Reaches(graph.Arcs(), file, v)
      ensures v in visited
    {
      var w :| Walk(graph.Arcs(), w) && w[0] == file && w[|w| - 1] == v;
      ClosedSetHoldsWalk(graph.Arcs(), visited, w);
    }
  }

  lemma SkipVisited(graph: Graph, file: File, visited: set<File>, stack: seq<File>, result: set<File>, f: File)
    requires Explored(graph, file, visited, stack + [f], result) && f in visited
    ensures Explored(graph, file, visited, stack, result)
  {
    assert forall v :: v in stack + [f] <==> v in stack || v == f;
    assert (stack + [f])[|stack|] == f;
  }

  lemma ExpandFile(graph: Graph, file: File, visited: set<File>, stack: seq<File>, result: set<File>, f: File,
                   stack': seq<File>, result': set<File>)
    requires Explored(graph, file, visited, stack + [f], result) && f !in visited
    requires forall v :: v in result' <==> v in result || (v !in visited + {f} && v in graph.Deps(f))
    requires forall v :: v in stack' <==> v in stack || (v !in visited + {f} && v in graph.Deps(f))
    ensures Explored(graph, file, visited + {f}, stack', result')
    ensures |graph.Universe() + {file} - (visited + {f})| < |graph.Universe() + {file} - visited|
  {
    assert forall v :: v in stack + [f] <==> v in stack || v == f;
    assert (stack + [f])[|stack|] == f;
    forall v | v in graph.Deps(f)
      ensures Reaches(graph.Arcs(), file, v) && v in graph.Universe()
    {
      ReachesStep(graph.Arcs(), file, f, v);
    }
    UnvisitedShrinks(graph.Universe() + {file}, visited, f);
  }

  /**
   `getTransitiveDependencies`: exactly the files that `file` reaches, without `file` itself even
   when it lies on a cycle.
   */
  method GetTransitiveDependencies(graph: Graph, file: File) returns (result: set<File>)
    ensures forall v :: v in result <==> v != file && Reaches(graph.Arcs(), file, v)
  {
    hide *;
    var visited: set<File> := {};
    var stack := [file];
    result := {};
    StartExploring(graph, file);
    while stack != []
      invariant Explored(graph, file, visited, stack, result)
      decreases |graph.Universe() + {file} - visited|, |stack|
    {
      var rest, current := stack[..|stack| - 1], stack[|stack| - 1];
      assert stack == rest + [current];
      if current in visited {
        SkipVisited(graph, file, visited, rest, result, current);
        stack := rest;
      } else {
        var result', stack' := PushDependencies(graph, current, visited + {current}, result, rest);
        ExpandFile(graph, file, visited, rest, result, current, stack', result');
        visited, result, stack := visited + {current}, result', stack';
      }
    }
    ExploredIsReachable(graph, file, visited, result);
  }

  lemma UnvisitedShrinks(all: set<File>, visited: set<File>, f: File)
    requires f in all && f !in visited
    ensures |all - (visited + {f})| < |all - visited|
  {
    assert all - visited == (all - (visited + {f})) + {f};
  }

  /** The loop over the dependencies of the file just visited. */
  method PushDependencies(graph: Graph, current: File, visited: set<File>, result0: set<File>, stack0: seq<File>)
    returns (result: set<File>, stack: seq<File>)
    ensures forall v :: v in result <==> v in result0 || (v !in visited && v in graph.Deps(current))
    ensures forall v :: v in stack <==> v in stack0 || (v !in visited && v in graph.Deps(current))
  {
    result, stack := result0, stack0;
    var deps := graph.Deps(current);
    for i := 0 to |deps|
      invariant forall v :: v in result <==> v in result0 || (v !in visited && v in deps[..i])
      invariant forall v :: v in stack <==> v in stack0 || (v !in visited && v in deps[..i])
    {
      var dep := deps[i];
      if dep !in visited {
        result, stack := result + {dep}, stack + [dep];
      }
    }
  }

  // ------------------------------------------------------------------ depth and longest chain

  /** A walk that leaves every vertex at most once and never leaves one of `visited`. */
  ghost predicate Trail(r: Relation, visited: set<File>, w: seq<File>) {
    && Walk(r, w) && Distinct(w[..|w| - 1])
    && forall i :: 0 <= i < |w| - 1 ==> w[i] !in visited
  }

  /** A walk without repeated vertices that avoids `visited`. */
  ghost predicate SimplePath(r: Relation, visited: set<File>, w: seq<File>) {
    && Walk(r, w) && Distinct(w)
    && forall v :: v in w ==> v !in visited
  }

  ghost predicate IsMaxDepth(r: Relation, d: nat) {
    && (exists w :: Trail(r, {}, w) && |w| - 1 == d)
    && (forall w :: Trail(r, {}, w) ==> |w| - 1 <= d)
  }

  ghost predicate IsLongestChain(r: Relation, chain: seq<File>) {
    && SimplePath(r, {}, chain)
    && (forall w :: SimplePath(r, {}, w) ==> |w| <= |chain|)
  }

  lemma TrailTail(r: Relation, visited: set<File>, w: seq<File>)
    requires Trail(r, visited, w) && |w| >= 2
    ensures w[0] !in visited && (w[0], w[1]) in r && Trail(r, visited + {w[0]}, w[1..])
  {
    var t := w[1..];
    assert forall i {:trigger t[i]} :: 0 <= i < |t| - 1 ==> t[i] == w[..|w| - 1][i + 1];
    assert w[..|w| - 1][0] == w[0];
  }

  lemma TrailCons(r: Relation, visited: set<File>, u: File, w: seq<File>)
    requires u !in visited && Trail(r, visited + {u}, w) && (u, w[0]) in r
    ensures Trail(r, visited, [u] + w)
  {
    var t := [u] + w;
    assert t[..|t| - 1] == [u] + w[..|w| - 1];
  }

  lemma SimplePathTail(r: Relation, visited: set<File>, w: seq<File>)
    requires SimplePath(r, visited, w) && |w| >= 2
    ensures w[0] !in visited && (w[0], w[1]) in r && SimplePath(r, visited + {w[0]}, w[1..])
  {
    assert forall v :: v in w[1..] ==> v in w;
  }

  lemma SimplePathCons(r: Relation, visited: set<File>, u: File, w: seq<File>)
    requires u !in visited && SimplePath(r, visited + {u}, w) && (u, w[0]) in r
    ensures SimplePath(r, visited, [u] + w)
  {
  }

  /** `d` is the length of the longest trail from `file`. */
  ghost predicate DepthFrom(r: Relation, visited: set<File>, file: File, d: nat) {
    && (exists w :: Trail(r, visited, w) && w[0] == file && |w| - 1 == d)
    && (forall w :: Trail(r, visited, w) && w[0] == file ==> |w| - 1 <= d)
  }

  /** What the loop of `calculateDepth` knows after the dependencies `deps`. */
  ghost predicate DepthOver(r: Relation, visited: set<File>, file: File, deps: seq<File>, d: nat) {
    && (exists w :: Trail(r, visited, w) && w[0] == file && |w| - 1 == d)
    && (forall w :: Trail(r, visited, w) && w[0] == file && |w| >= 2 && w[1] in deps ==> |w| - 1 <= d)
  }

  lemma DepthOverStep(r: Relation, visited: set<File>, file: File, deps: seq<File>, d: nat, dep: File, sub: nat)
    requires file !in visited && (file, dep) in r
    requires DepthOver(r, visited, file, deps, d) && DepthFrom(r, visited + {file}, dep, sub)
    ensures DepthOver(r, visited, file, deps + [dep], if d > 1 + sub then d else 1 + sub)
  {
    var t :| Trail(r, visited + {file}, t) && t[0] == dep && |t| - 1 == sub;
    TrailCons(r, visited, file, t);
    assert ([file] + t)[0] == file && |[file] + t| - 1 == 1 + sub;
    forall w | Trail(r, visited, w) && w[0] == file && |w| >= 2 && w[1] == dep
      ensures |w| - 1 <= 1 + sub
    {
      TrailTail(r, visited, w);
      assert w[1..][0] == dep;
    }
  }

  lemma DepthStart(r: Relation, visited: set<File>, file: File)
    ensures DepthOver(r, visited, file, [], 0)
    ensures file in visited ==> DepthFrom(r, visited, file, 0)
  {
    assert Trail(r, visited, [file]) && [file][0] == file;
    forall w | Trail(r, visited, w) && w[0] == file && file in visited
      ensures |w| == 1
    {
      if |w| >= 2 {
        TrailTail(r, visited, w);
      }
    }
  }

  lemma DepthEnd(graph: Graph, visited: set<File>, file: File, d: nat)
    requires DepthOver(graph.Arcs(), visited, file, graph.Deps(file), d)
    ensures DepthFrom(graph.Arcs(), visited, file, d)
  {
    forall w | Trail(graph.Arcs(), visited, w) && w[0] == file
      ensures |w| - 1 <= d
    {
      if |w| >= 2 {
        assert (w[0], w[1]) in graph.Arcs();
      }
    }
  }

  lemma DependencyIsKnown(graph: Graph, file: File, dep: File)
    requires dep in graph.Deps(file)
    ensures (file, dep) in graph.Arcs() && file in graph.Universe() && dep in graph.Universe()
  {
  }

  method CalculateDepth(graph: Graph, file: File, visited: set<File>) returns (d: nat)
    ensures DepthFrom(graph.Arcs(), visited, file, d)
    decreases graph.Universe() + {file} - visited
  {
    hide *;
    ghost var arcs := graph.Arcs();
    DepthStart(arcs, visited, file);
    if file in visited {
      return 0;
    }
    var deps := graph.Deps(file);
    d := 0;
    for i := 0 to |deps|
      invariant DepthOver(arcs, visited, file, deps[..i], d)
    {
      var dep := deps[i];
      DependencyIsKnown(graph, file, dep);
      var sub := CalculateDepth(graph, dep, visited + {file});
      DepthOverStep(arcs, visited, file, deps[..i], d, dep, sub);
      assert deps[..i + 1] == deps[..i] + [dep];
      d := if d > 1 + sub then d else 1 + sub;
    }
    assert deps[..|deps|] == deps;
    DepthEnd(graph, visited, file, d);
  }

  /**
   `calculateMaxDepth`: the length of the longest walk that leaves no file twice. It may end
   in a file that it has already left.
   */
  method CalculateMaxDepth(graph: Graph) returns (maxDepth: nat)
    ensures IsMaxDepth(graph.Arcs(), maxDepth)
  {
    ghost var arcs, keys := graph.Arcs(), graph.nodes.keys;
    maxDepth := 0;
    assert Trail(arcs, {}, [""]);
    assert forall w :: Trail(arcs, {}, w) ==> w != [];
    hide Trail, Distinct;
    for i := 0 to |graph.nodes.keys|
      invariant exists w :: Trail(arcs, {}, w) && |w| - 1 == maxDepth
      invariant forall w :: Trail(arcs, {}, w) && w[0] in keys[..i] ==> |w| - 1 <= maxDepth
    {
      var depth := CalculateDepth(graph, graph.nodes.keys[i], {});
      assert keys[..i + 1] == keys[..i] + [keys[i]];
      maxDepth := if depth > maxDepth then depth else maxDepth;
    }
    assert keys[..|keys|] == keys;
    forall w | Trail(arcs, {}, w)
      ensures |w| - 1 <= maxDepth
    {
      if |w| >= 2 {
        WalkStartsAtKey(graph, w);
      }
    }
  }

  lemma WalkStartsAtKey(graph: Graph, w: seq<File>)
    requires Walk(graph.Arcs(), w) && |w| >= 2
    ensures w[0] in graph.nodes.keys
  {
    assert (w[0], w[1]) in graph.Arcs();
    assert w[0] in Elems(graph.nodes.keys);
  }

  /** `chain` is a longest simple path from `file`; there is none when `file` is `visited`. */
  ghost predicate ChainFrom(r: Relation, visited: set<File>, file: File, chain: seq<File>) {
    if file in visited then chain == []
    else
      && SimplePath(r, visited, chain) && chain[0] == file
      && (forall w :: SimplePath(r, visited, w) && w[0] == file ==> |w| <= |chain|)
  }

  /** What the loop of `buildChainFrom` knows after the dependencies `deps`. */
  ghost predicate ChainOver(r: Relation, visited: set<File>, file: File, deps: seq<File>, sub: seq<File>) {
    && SimplePath(r, visited, [file] + sub)
    && (forall w :: SimplePath(r, visited, w) && w[0] == file && |w| >= 2 && w[1] in deps ==> |w| <= 1 + |sub|)
  }

  lemma ChainOverStep(r: Relation, visited: set<File>, file: File, deps: seq<File>,
                      best: seq<File>, dep: File, sub: seq<File>)
    requires file !in visited && (file, dep) in r
    requires ChainOver(r, visited, file, deps, best) && ChainFrom(r, visited + {file}, dep, sub)
    ensures ChainOver(r, visited, file, deps + [dep], if |sub| > |best| then sub else best)
  {
    if |sub| > |best| {
      SimplePathCons(r, visited, file, sub);
    }
    forall w | SimplePath(r, visited, w) && w[0] == file && |w| >= 2 && w[1] == dep
      ensures |w| <= 1 + |sub|
    {
      SimplePathTail(r, visited, w);
      assert w[1..][0] == dep;
    }
  }

  lemma ChainStart(r: Relation, visited: set<File>, file: File)
    ensures if file in visited then ChainFrom(r, visited, file, []) else ChainOver(r, visited, file, [], [])
  {
    assert [file] + [] == [file];
  }

  lemma ChainEnd(graph: Graph, visited: set<File>, file: File, sub: seq<File>)
    requires file !in visited && ChainOver(graph.Arcs(), visited, file, graph.Deps(file), sub)
    ensures ChainFrom(graph.Arcs(), visited, file, [file] + sub)
  {
    forall w | SimplePath(graph.Arcs(), visited, w) && w[0] == file
      ensures |w| <= 1 + |sub|
    {
      if |w| >= 2 {
        assert (w[0], w[1]) in graph.Arcs();
      }
    }
  }

  method BuildChainFrom(graph: Graph, node: File, visited: set<File>) returns (chain: seq<File>)
    ensures ChainFrom(graph.Arcs(), visited, node, chain)
    decreases graph.Universe() + {node} - visited
  {
    hide *;
    ghost var arcs := graph.Arcs();
    ChainStart(arcs, visited, node);
    if node in visited {
      return [];
    }
    var deps := graph.Deps(node);
    var longestSubChain: seq<File> := [];
    for i := 0 to |deps|
      invariant ChainOver(arcs, visited, node, deps[..i], longestSubChain)
    {
      var dep := deps[i];
      DependencyIsKnown(graph, node, dep);
      var subChain := BuildChainFrom(graph, dep, visited + {node});
      ChainOverStep(arcs, visited, node, deps[..i], longestSubChain, dep, subChain);
      assert deps[..i + 1] == deps[..i] + [dep];
      longestSubChain := if |subChain| > |longestSubChain| then subChain else longestSubChain;
    }
    assert deps[..|deps|] == deps;
    chain := [node] + longestSubChain;
    ChainEnd(graph, visited, node, longestSubChain);
  }

  /** `getLongestChain`: a longest simple path, in any graph with at least one file. */
  method GetLongestChain(graph: Graph) returns (chain: seq<File>)
    ensures graph.nodes.keys == [] ==> chain == []
    ensures graph.nodes.keys != [] ==> IsLongestChain(graph.Arcs(), chain)
  {
    ghost var arcs, keys := graph.Arcs(), graph.nodes.keys;
    chain := [];
    for i := 0 to |graph.nodes.keys|
      invariant if i == 0 then chain == [] else SimplePath(arcs, {}, chain)
      invariant forall w :: SimplePath(arcs, {}, w) && w[0] in keys[..i] ==> |w| <= |chain|
    {
      var candidate := BuildChainFrom(graph, graph.nodes.keys[i], {});
      assert keys[..i + 1] == keys[..i] + [keys[i]];
      chain := if |candidate| > |chain| then candidate else chain;
    }
    assert keys[..|keys|] == keys;
    forall w | SimplePath(arcs, {}, w) && chain != []
      ensures |w| <= |chain|
    {
      if |w| >= 2 {
        WalkStartsAtKey(graph, w);
      }
    }
  }

  // ------------------------------------------------------------------ depth against chain

  /** In a graph without cycles no walk meets a file twice. */
  lemma AcyclicWalkIsSimple(r: Relation, w: seq<File>)
    requires !HasCycle(r) && Walk(r, w)
    ensures SimplePath(r, {}, w)
  {
    forall i, j | 0 <= i < j < |w|
      ensures w[i] != w[j]
    {
      if w[i] == w[j] {
        assert ClosedWalk(r, w[i..j + 1]);
      }
    }
  }

  ghost predicate Continues(r: Relation, w: seq<File>)
    requires w != []
  {
    exists a :: a in r && a.0 == w[|w| - 1]
  }

  /**
   The two measures differ by less than one file: the depth counts the edges of a longest
   chain, and one more exactly when the last file of some longest chain still has a dependency.
   */
  lemma DepthAgainstChain(r: Relation, d: nat, chain: seq<File>)
    requires IsMaxDepth(r, d) && IsLongestChain(r, chain)
    ensures d == |chain| - 1 || d == |chain|
    ensures d == |chain| <==> exists w :: SimplePath(r, {}, w) && |w| == |chain| && Continues(r, w)
  {
    PathIsTrail(r, chain);
    var w :| Trail(r, {}, w) && |w| - 1 == d;
    if d >= 1 {
      TrailFront(r, w);
    }
    hide SimplePath, Trail, Continues;
    forall p | SimplePath(r, {}, p) && |p| == |chain| && Continues(r, p)
      ensures d == |chain|
    {
      var longer := ContinuedPath(r, p);
    }
  }

  lemma PathIsTrail(r: Relation, p: seq<File>)
    requires SimplePath(r, {}, p)
    ensures p != [] && Trail(r, {}, p)
  {
    assert p[..|p| - 1] <= p;
  }

  lemma TrailFront(r: Relation, w: seq<File>)
    requires Trail(r, {}, w) && |w| >= 2
    ensures SimplePath(r, {}, w[..|w| - 1]) && Continues(r, w[..|w| - 1])
  {
    var front := w[..|w| - 1];
    assert (front[|front| - 1], w[|w| - 1]) in r;
  }

  lemma ContinuedPath(r: Relation, p: seq<File>) returns (longer: seq<File>)
    requires SimplePath(r, {}, p) && Continues(r, p)
    ensures |longer| == |p| + 1 && Trail(r, {}, longer)
  {
    var a :| a in r && a.0 == p[|p| - 1];
    assert a == (p[|p| - 1], a.1);
    longer := p + [a.1];
    assert longer[..|longer| - 1] == p;
  }

  /**
   On a graph without cycles the depth is the length of the longest walk of all, and the
   longest chain is a walk of exactly that many edges.
   */
  lemma AcyclicDepth(r: Relation, d: nat, chain: seq<File>)
    requires !HasCycle(r) && IsMaxDepth(r, d) && IsLongestChain(r, chain)
    ensures |chain| == d + 1
    ensures forall w :: Walk(r, w) ==> |w| <= d + 1
  {
    DepthAgainstChain(r, d, chain);
    forall w | Walk(r, w)
      ensures |w| <= |chain|
    {
      AcyclicWalkIsSimple(r, w);
    }
  }
}
