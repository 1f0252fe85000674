/**
 * A resumable Dijkstra search (class `ShortestPaths` of the `graph` package):
 * distances and predecessors in arrays indexed by vertex id, a set of settled
 * ids, and a `HeapMinQueue` frontier keyed by best known distance.  The graph
 * is a sequence of adjacency lists and the weigher a function from edges to
 * non-negative integers.
 */
module Paths {
  import opened PriorityQueue

  /** An edge from `startId` to `endId`; `data` stands for whatever else the weigher reads. */
  datatype Edge = Edge(startId: int, endId: int, data: int)

  /** Vertex ids are 0 .. |g| - 1, and `g[u]` lists the edges leaving `u`. */
  ghost predicate WellFormed(g: seq<seq<Edge>>)
  {
    forall u, e {:trigger e in g[u]} :: 0 <= u < |g| && e in g[u] ==> e.startId == u && 0 <= e.endId < |g|
  }

  /** `p` is a walk of graph edges from `s` to `v`. */
  ghost predicate Walk(g: seq<seq<Edge>>, s: int, p: seq<Edge>, v: int)
    decreases |p|
  {
    if p == [] then v == s
    else
      var e := p[|p| - 1];
      && e.endId == v
      && 0 <= e.startId < |g|
      && e in g[e.startId]
      && Walk(g, s, p[..|p| - 1], e.startId)
  }

  /** Total weight of the edges of `p`. */
  ghost function PathWeight(w: Edge -> nat, p: seq<Edge>): nat
    decreases |p|
  {
    if p == [] then 0 else PathWeight(w, p[..|p| - 1]) + w(p[|p| - 1])
  }

  /** `v` can be reached from `s`. */
  ghost predicate Reachable(g: seq<seq<Edge>>, s: int, v: int)
  {
    exists p :: Walk(g, s, p, v)
  }

  /** `d` is the least weight of a walk from `s` to `v`. */
  ghost predicate IsShortest(g: seq<seq<Edge>>, w: Edge -> nat, s: int, v: int, d: int)
  {
    && (exists p :: Walk(g, s, p, v) && PathWeight(w, p) == d)
    && (forall p :: Walk(g, s, p, v) ==> d <= PathWeight(w, p))
  }

  /** A walk to `u` followed by an edge leaving `u` is a walk to the edge's end, one edge heavier. */
  lemma WalkExtend(g: seq<seq<Edge>>, w: Edge -> nat, s: int, p: seq<Edge>, u: int, e: Edge)
    requires WellFormed(g) && Walk(g, s, p, u) && 0 <= u < |g| && e in g[u]
    ensures Walk(g, s, p + [e], e.endId)
    ensures PathWeight(w, p + [e]) == PathWeight(w, p) + w(e)
  {
    assert (p + [e])[..|p|] == p;
  }

  // ---------------------------------------------------------------------
  // The search invariant, over the values of the solver's state:
  // D = distances, P = predecessors, S = settled ids, F = frontier contents,
  // paths = a witness walk for every discovered vertex.

  /** Every known distance is the weight of a walk from the start. */
  ghost predicate Witnessed(g: seq<seq<Edge>>, w: Edge -> nat, s: int, D: seq<int>, paths: map<int, seq<Edge>>)
  {
    forall v :: 0 <= v < |D| && D[v] != -1 ==> v in paths && Walk(g, s, paths[v], v) && PathWeight(w, paths[v]) == D[v]
  }

  /**
   * The frontier holds every discovered, unsettled vertex, with its known
   * distance as priority; settled vertices are discovered.
   */
  ghost predicate FrontierAgrees(D: seq<int>, S: set<int>, F: map<int, int>)
  {
    && (forall v :: v in F ==> 0 <= v < |D| && D[v] != -1 && F[v] == D[v])
    && (forall v :: 0 <= v < |D| && D[v] != -1 && v !in S ==> v in F)
    && (forall v :: v in S ==> 0 <= v < |D| && D[v] != -1)
  }

  /** No walk to a settled vertex is lighter than its distance. */
  ghost predicate SettledOptimal(g: seq<seq<Edge>>, w: Edge -> nat, s: int, D: seq<int>, S: set<int>)
  {
    forall v, p :: v in S && 0 <= v < |D| && Walk(g, s, p, v) ==> D[v] <= PathWeight(w, p)
  }

  /** Settled vertices are no farther than unsettled frontier vertices. */
  ghost predicate SettledFirst(D: seq<int>, S: set<int>, F: map<int, int>)
  {
    forall u, v :: u in S && 0 <= u < |D| && v in F && v !in S ==> D[u] <= F[v]
  }

  /** Every edge leaving a settled vertex has been relaxed. */
  ghost predicate EdgesRelaxed(g: seq<seq<Edge>>, w: Edge -> nat, D: seq<int>, S: set<int>)
  {
    forall u, e {:trigger e in g[u], u in S} :: u in S && 0 <= u < |g| && u < |D| && e in g[u] && 0 <= e.endId < |D| ==>
      D[e.endId] != -1 && D[e.endId] <= D[u] + w(e)
  }

  /**
   * Undiscovered vertices have no predecessor; a discovered vertex other
   * than the start has a settled predecessor with an edge that accounts for
   * its distance.
   */
  ghost predicate PredecessorsAccount(g: seq<seq<Edge>>, w: Edge -> nat, s: int, D: seq<int>, P: seq<int>, S: set<int>)
  {
    && (forall v {:trigger P[v]} :: 0 <= v < |D| && v < |P| && D[v] == -1 ==> P[v] == -1)
    && (forall v {:trigger P[v]} :: 0 <= v < |D| && v < |P| && D[v] != -1 && v != s ==>
          && P[v] in S && 0 <= P[v] < |g| && P[v] < |D|
          && exists e {:trigger e in g[P[v]]} :: e in g[P[v]] && e.endId == v && D[v] == D[P[v]] + w(e))
  }

  /** Only the start, re-seeded by a later call, can be both settled and in the frontier. */
  ghost predicate StaleOnlyStart(s: int, S: set<int>, F: map<int, int>)
  {
    forall v :: v in F && v in S ==> v == s
  }

  /** The invariant of a search from `s` that has been started. */
  ghost predicate Inv(g: seq<seq<Edge>>, w: Edge -> nat, s: int, D: seq<int>, P: seq<int>, S: set<int>,
                      F: map<int, int>, paths: map<int, seq<Edge>>)
  {
    && WellFormed(g) && |D| == |g| && |P| == |g| && 0 <= s < |g|
    && D[s] == 0 && P[s] == -1
    && Witnessed(g, w, s, D, paths)
    && FrontierAgrees(D, S, F)
    && SettledOptimal(g, w, s, D, S)
    && SettledFirst(D, S, F)
    && EdgesRelaxed(g, w, D, S)
    && PredecessorsAccount(g, w, s, D, P, S)
    && StaleOnlyStart(s, S, F)
  }

  /**
   * The effect on a state (D, P, F, paths) of relaxing the edges `es`
   * leaving `u`, giving (D', P', F', paths'): each edge leads to a vertex no
   * farther than through `u`; a distance changes only to a strictly smaller
   * one (or from unknown) through one of the edges, and then the predecessor
   * becomes `u` and the frontier priority the new distance; nothing else
   * changes, the distance of `u` included.
   */
  ghost predicate Relaxed(w: Edge -> nat, u: int, es: seq<Edge>,
                          D: seq<int>, P: seq<int>, F: map<int, int>, paths: map<int, seq<Edge>>,
                          D': seq<int>, P': seq<int>, F': map<int, int>, paths': map<int, seq<Edge>>)
  {
    && |P| == |D| && |D'| == |D| && |P'| == |D| && 0 <= u < |D|
    && D'[u] == D[u] && u in paths
    && (forall v :: v in F' ==> 0 <= v < |D|)
    && EdgesBounded(w, u, es, D, D')
    && ChangedThrough(w, u, es, D, paths, D', F', paths')
    && PredecessorsFollow(u, D, P, D', P')
    && KeptElsewhere(D, F, paths, D', F', paths')
  }

  /** Each edge of `es` leads to a vertex whose distance in D' is no greater than through `u` in D. */
  ghost predicate EdgesBounded(w: Edge -> nat, u: int, es: seq<Edge>, D: seq<int>, D': seq<int>)
    requires 0 <= u < |D|
  {
    forall e :: e in es ==> 0 <= e.endId < |D'| && D'[e.endId] != -1 && D'[e.endId] <= D[u] + w(e)
  }

  /**
   * Each distance that differs between D and D' became smaller (or known)
   * through an edge of `es`, with that distance as frontier priority and the
   * walk to `u` extended by the edge as witness.
   */
  ghost predicate ChangedThrough(w: Edge -> nat, u: int, es: seq<Edge>, D: seq<int>, paths: map<int, seq<Edge>>,
                                 D': seq<int>, F': map<int, int>, paths': map<int, seq<Edge>>)
    requires 0 <= u < |D| && u in paths && |D'| == |D|
  {
    forall v :: 0 <= v < |D| && D'[v] != D[v] ==>
      && (D[v] == -1 || D'[v] < D[v])
      && v in F' && F'[v] == D'[v] && v in paths'
      && exists e {:trigger e in es} :: e in es && e.endId == v && D'[v] == D[u] + w(e) && paths'[v] == paths[u] + [e]
  }

  /** A vertex whose distance changed has predecessor `u`; every other keeps its predecessor. */
  ghost predicate PredecessorsFollow(u: int, D: seq<int>, P: seq<int>, D': seq<int>, P': seq<int>)
    requires |P| == |D| && |D'| == |D| && |P'| == |D|
  {
    forall v {:trigger P'[v]} :: 0 <= v < |D| ==> P'[v] == if D'[v] == D[v] then P[v] else u
  }

  /** A vertex whose distance did not change keeps its frontier entry and its witness walk. */
  ghost predicate KeptElsewhere(D: seq<int>, F: map<int, int>, paths: map<int, seq<Edge>>,
                                D': seq<int>, F': map<int, int>, paths': map<int, seq<Edge>>)
    requires |D'| == |D|
  {
    forall v :: 0 <= v < |D| && D'[v] == D[v] ==>
      && (v in F' <==> v in F) && (v in F ==> F'[v] == F[v])
      && (v in paths ==> v in paths' && paths'[v] == paths[v])
  }

  /** A distance through `u` that is below the current one is a change from the original distance, and lower. */
  lemma UpdateLowers(w: Edge -> nat, u: int, es: seq<Edge>, D: seq<int>, paths: map<int, seq<Edge>>,
                     D': seq<int>, F': map<int, int>, paths': map<int, seq<Edge>>, v: int, dist: int)
    requires 0 <= u < |D| && D[u] >= 0 && u in paths && |D'| == |D| && ChangedThrough(w, u, es, D, paths, D', F', paths')
    requires 0 <= v < |D| && dist >= 0 && (D'[v] == -1 || dist < D'[v])
    ensures dist != D[v] && (D[v] == -1 || dist < D[v])
  {
    if D'[v] != D[v] {
      var e' :| e' in es && e'.endId == v && D'[v] == D[u] + w(e') && paths'[v] == paths[u] + [e'];
    }
  }

  /** Changing the distance of `v` and making `u` its predecessor keeps predecessors following the changes. */
  lemma PredecessorsUpdate(u: int, D: seq<int>, P: seq<int>, D': seq<int>, P': seq<int>, v: int, dist: int)
    requires |P| == |D| && |D'| == |D| && |P'| == |D| && PredecessorsFollow(u, D, P, D', P')
    requires 0 <= v < |D| && dist != D[v]
    ensures PredecessorsFollow(u, D, P, D'[v := dist], P'[v := u])
  {
  }

  /** Changing the distance, frontier entry and witness of `v` only keeps every unchanged vertex's entries. */
  lemma KeptUpdate(D: seq<int>, F: map<int, int>, paths: map<int, seq<Edge>>,
                   D': seq<int>, F': map<int, int>, paths': map<int, seq<Edge>>, v: int, dist: int, p: seq<Edge>)
    requires |D'| == |D| && KeptElsewhere(D, F, paths, D', F', paths')
    requires 0 <= v < |D| && dist != D[v]
    ensures KeptElsewhere(D, F, paths, D'[v := dist], F'[v := dist], paths'[v := p])
  {
  }

  /** Lowering the distance of the end of `e` to the distance through `u` keeps the edges bounded. */
  lemma BoundedUpdate(w: Edge -> nat, u: int, es: seq<Edge>, e: Edge, D: seq<int>, D': seq<int>, dist: int)
    requires 0 <= u < |D| && D[u] >= 0 && EdgesBounded(w, u, es, D, D')
    requires 0 <= e.endId < |D'| && dist == D[u] + w(e) && (D'[e.endId] == -1 || dist < D'[e.endId])
    ensures EdgesBounded(w, u, es + [e], D, D'[e.endId := dist])
  {
    forall e' | e' in es + [e]
      ensures 0 <= e'.endId < |D'| && D'[e.endId := dist][e'.endId] != -1 && D'[e.endId := dist][e'.endId] <= D[u] + w(e')
    {
      if e' != e {
        assert e' in es;
        assert D'[e'.endId] != -1 && D'[e'.endId] <= D[u] + w(e');
      }
    }
  }

  /** Lowering the distance of the end of `e` through `u` records the change as made through `e`. */
  lemma ChangedUpdate(w: Edge -> nat, u: int, es: seq<Edge>, e: Edge, D: seq<int>, paths: map<int, seq<Edge>>,
                      D': seq<int>, F': map<int, int>, paths': map<int, seq<Edge>>, dist: int)
    requires 0 <= u < |D| && u in paths && |D'| == |D| && ChangedThrough(w, u, es, D, paths, D', F', paths')
    requires 0 <= e.endId < |D| && e.endId != u && dist == D[u] + w(e)
    requires dist != D[e.endId] && (D[e.endId] == -1 || dist < D[e.endId])
    ensures ChangedThrough(w, u, es + [e], D, paths, D'[e.endId := dist], F'[e.endId := dist],
                           paths'[e.endId := paths[u] + [e]])
  {
    var v := e.endId;
    var D'', F'', paths'' := D'[v := dist], F'[v := dist], paths'[v := paths[u] + [e]];
    forall x | 0 <= x < |D| && D''[x] != D[x]
      ensures (D[x] == -1 || D''[x] < D[x]) && x in F'' && F''[x] == D''[x] && x in paths''
      ensures exists e' {:trigger e' in es + [e]} :: e' in es + [e] && e'.endId == x && D''[x] == D[u] + w(e') && paths''[x] == paths[u] + [e']
    {
      if x == v {
        assert e in es + [e];
      } else {
        var e' :| e' in es && e'.endId == x && D'[x] == D[u] + w(e') && paths'[x] == paths[u] + [e'];
        assert e' in es + [e];
      }
    }
  }

  /** Relaxing no edge changes nothing. */
  lemma RelaxNone(w: Edge -> nat, u: int, D: seq<int>, P: seq<int>, F: map<int, int>, paths: map<int, seq<Edge>>)
    requires |P| == |D| && 0 <= u < |D| && u in paths
    requires forall v :: v in F ==> 0 <= v < |D|
    ensures Relaxed(w, u, [], D, P, F, paths, D, P, F, paths)
  {
  }

  /** An edge whose end is already no farther than through `u` is relaxed with no change. */
  lemma RelaxKeep(w: Edge -> nat, u: int, es: seq<Edge>, e: Edge,
                  D: seq<int>, P: seq<int>, F: map<int, int>, paths: map<int, seq<Edge>>,
                  D': seq<int>, P': seq<int>, F': map<int, int>, paths': map<int, seq<Edge>>)
    requires Relaxed(w, u, es, D, P, F, paths, D', P', F', paths')
    requires 0 <= e.endId < |D| && D'[e.endId] != -1 && D'[e.endId] <= D'[u] + w(e)
    ensures Relaxed(w, u, es + [e], D, P, F, paths, D', P', F', paths')
  {
    forall x | 0 <= x < |D| && D'[x] != D[x]
      ensures exists e' {:trigger e' in es + [e]} :: e' in es + [e] && e'.endId == x && D'[x] == D[u] + w(e') && paths'[x] == paths[u] + [e']
    {
      var e' :| e' in es && e'.endId == x && D'[x] == D[u] + w(e') && paths'[x] == paths[u] + [e'];
      assert e' in es + [e];
    }
  }

  /**
   * An edge whose end is undiscovered or farther than through `u` gives the
   * end the distance through `u`, `u` as predecessor, that distance as
   * frontier priority and the walk to `u` extended by the edge.
   */
  lemma RelaxUpdate(w: Edge -> nat, u: int, es: seq<Edge>, e: Edge,
                    D: seq<int>, P: seq<int>, F: map<int, int>, paths: map<int, seq<Edge>>,
                    D': seq<int>, P': seq<int>, F': map<int, int>, paths': map<int, seq<Edge>>, dist: int)
    requires Relaxed(w, u, es, D, P, F, paths, D', P', F', paths')
    requires D[u] >= 0 && 0 <= e.endId < |D| && dist == D'[u] + w(e)
    requires D'[e.endId] == -1 || dist < D'[e.endId]
    ensures Relaxed(w, u, es + [e], D, P, F, paths,
                    D'[e.endId := dist], P'[e.endId := u], F'[e.endId := dist], paths'[e.endId := paths'[u] + [e]])
  {
    var v := e.endId;
    assert v != u;
    assert paths'[u] == paths[u];
    UpdateLowers(w, u, es, D, paths, D', F', paths', v, dist);
    BoundedUpdate(w, u, es, e, D, D', dist);
    ChangedUpdate(w, u, es, e, D, paths, D', F', paths', dist);
    PredecessorsUpdate(u, D, P, D', P', v, dist);
    KeptUpdate(D, F, paths, D', F', paths', v, dist, paths[u] + [e]);
  }

  /** The distances and predecessors of the ids in `S` are the same in both states. */
  ghost predicate SettledKept(S: set<int>, D: seq<int>, P: seq<int>, D': seq<int>, P': seq<int>)
  {
    && (forall v :: v in S && 0 <= v < |D| && v < |D'| ==> D'[v] == D[v])
    && (forall v {:trigger P'[v]} :: v in S && 0 <= v < |P| && v < |P'| ==> P'[v] == P[v])
  }

  /** No known distance is forgotten or raised. */
  ghost predicate NoneRaised(D: seq<int>, D': seq<int>)
  {
    |D'| == |D| && forall v :: 0 <= v < |D| && D[v] != -1 ==> D'[v] != -1 && D'[v] <= D[v]
  }

  /** What is kept over two steps, the first keeping a subset of what the second keeps, is kept over both. */
  lemma {:induction false} SettledKeptTrans(S: set<int>, S': set<int>, D: seq<int>, P: seq<int>,
                                            D': seq<int>, P': seq<int>, D'': seq<int>, P'': seq<int>)
    requires S <= S' && |D'| == |D| && |P'| == |P|
    requires SettledKept(S, D, P, D', P') && SettledKept(S', D', P', D'', P'')
    ensures SettledKept(S, D, P, D'', P'')
  {
    forall v | v in S && 0 <= v < |D| && v < |D''|
      ensures D''[v] == D[v]
    {
      assert D'[v] == D[v];
    }
    forall v | v in S && 0 <= v < |P| && v < |P''|
      ensures P''[v] == P[v]
    {
      assert P'[v] == P[v];
    }
  }

  /** Not raising any distance over two steps raises none over both. */
  lemma {:induction false} NoneRaisedTrans(D: seq<int>, D': seq<int>, D'': seq<int>)
    requires NoneRaised(D, D') && NoneRaised(D', D'')
    ensures NoneRaised(D, D'')
  {
    forall v | 0 <= v < |D| && D[v] != -1
      ensures D''[v] != -1 && D''[v] <= D[v]
    {
      assert D'[v] != -1 && D'[v] <= D[v];
    }
  }

  // ---------------------------------------------------------------------
  // Lemmas about one step of the search.

  /**
   * Every walk from the start to an unsettled vertex weighs at least `d`,
   * when `d` is no greater than any unsettled frontier priority.
   */
  lemma {:induction false} LowerBound(g: seq<seq<Edge>>, w: Edge -> nat, s: int, D: seq<int>, P: seq<int>,
                                      S: set<int>, F: map<int, int>, paths: map<int, seq<Edge>>,
                                      d: int, p: seq<Edge>, v: int)
    requires Inv(g, w, s, D, P, S, F, paths)
    requires forall x :: x in F && x !in S ==> d <= F[x]
    requires Walk(g, s, p, v) && v !in S
    ensures d <= PathWeight(w, p)
    decreases |p|
  {
    if p == [] {
      assert v == s && s in F;
    } else {
      var e := p[|p| - 1];
      var x := e.startId;
      var q := p[..|p| - 1];
      assert Walk(g, s, q, x);
      if x in S {
        assert D[v] <= D[x] + w(e);
        assert D[x] <= PathWeight(w, q);
        assert v in F;
      } else {
        LowerBound(g, w, s, D, P, S, F, paths, d, q, x);
      }
    }
  }

  /**
   * The settled vertices are the closest ones: no walk to an unsettled
   * vertex is lighter than the distance of any settled vertex.
   */
  lemma SettledClosest(g: seq<seq<Edge>>, w: Edge -> nat, s: int, D: seq<int>, P: seq<int>,
                       S: set<int>, F: map<int, int>, paths: map<int, seq<Edge>>,
                       u: int, p: seq<Edge>, v: int)
    requires Inv(g, w, s, D, P, S, F, paths)
    requires u in S && v !in S && Walk(g, s, p, v)
    ensures D[u] <= PathWeight(w, p)
  {
    LowerBound(g, w, s, D, P, S, F, paths, D[u], p, v);
  }

  /**
   * Relaxing the edges of a frontier vertex `u` of least priority leaves the
   * settled distances alone, never raises a known distance, and changes only
   * unsettled vertices, to distances no smaller than that of `u`.
   */
  lemma RelaxKeepsSettled(g: seq<seq<Edge>>, w: Edge -> nat, s: int, D: seq<int>, P: seq<int>,
                          S: set<int>, F: map<int, int>, paths: map<int, seq<Edge>>, u: int,
                          D': seq<int>, P': seq<int>, F': map<int, int>, paths': map<int, seq<Edge>>)
    requires Inv(g, w, s, D, P, S, F, paths)
    requires u in F && u !in S
    requires Relaxed(w, u, g[u], D, P, F - {u}, paths, D', P', F', paths')
    ensures forall v :: v in S ==> D'[v] == D[v]
    ensures forall v {:trigger P'[v]} :: v in S ==> P'[v] == P[v]
    ensures D'[s] == 0 && P'[s] == -1
    ensures forall v :: 0 <= v < |g| && D[v] != -1 ==> D'[v] != -1 && D'[v] <= D[v]
    ensures forall v :: 0 <= v < |g| && D'[v] != D[v] ==> v !in S && v != s && v != u && D'[v] >= D[u]
  {
    forall v | 0 <= v < |g| && D'[v] != D[v]
      ensures v !in S && v != s && D'[v] >= D[u]
    {
      var e :| e in g[u] && e.endId == v && D'[v] == D[u] + w(e) && paths'[v] == paths[u] + [e];
    }
  }

  /** Walks witnessing the new distances after relaxing `u`. */
  lemma RelaxKeepsWitnesses(g: seq<seq<Edge>>, w: Edge -> nat, s: int, D: seq<int>, P: seq<int>,
                            S: set<int>, F: map<int, int>, paths: map<int, seq<Edge>>, u: int,
                            D': seq<int>, P': seq<int>, F': map<int, int>, paths': map<int, seq<Edge>>)
    requires Inv(g, w, s, D, P, S, F, paths)
    requires u in F && u !in S
    requires Relaxed(w, u, g[u], D, P, F - {u}, paths, D', P', F', paths')
    ensures Witnessed(g, w, s, D', paths')
  {
    forall v | 0 <= v < |D'| && D'[v] != -1
      ensures v in paths' && Walk(g, s, paths'[v], v) && PathWeight(w, paths'[v]) == D'[v]
    {
      if D'[v] != D[v] {
        var e :| e in g[u] && e.endId == v && D'[v] == D[u] + w(e) && paths'[v] == paths[u] + [e];
        WalkExtend(g, w, s, paths[u], u, e);
      }
    }
  }

  /** The predecessor of every discovered vertex stays a settled vertex with an edge that accounts for its distance. */
  lemma RelaxKeepsPredecessors(g: seq<seq<Edge>>, w: Edge -> nat, s: int, D: seq<int>, P: seq<int>,
                       S: set<int>, F: map<int, int>, paths: map<int, seq<Edge>>, u: int,
                       D': seq<int>, P': seq<int>, F': map<int, int>, paths': map<int, seq<Edge>>)
    requires Inv(g, w, s, D, P, S, F, paths)
    requires u in F && u !in S
    requires Relaxed(w, u, g[u], D, P, F - {u}, paths, D', P', F', paths')
    requires forall v :: v in S ==> D'[v] == D[v]
    requires forall v {:trigger P'[v]} :: v in S ==> P'[v] == P[v]
    ensures PredecessorsAccount(g, w, s, D', P', S + {u})
  {
    forall v | 0 <= v < |D'| && v < |P'| && D'[v] != -1 && v != s
      ensures P'[v] in S + {u} && 0 <= P'[v] < |g| && P'[v] < |D'|
      ensures exists e {:trigger e in g[P'[v]]} :: e in g[P'[v]] && e.endId == v && D'[v] == D'[P'[v]] + w(e)
    {
      if D'[v] != D[v] {
        var e :| e in g[u] && e.endId == v && D'[v] == D[u] + w(e) && paths'[v] == paths[u] + [e];
        assert P'[v] == u && D'[u] == D[u];
      } else {
        var e :| e in g[P[v]] && e.endId == v && D[v] == D[P[v]] + w(e);
        assert P'[v] == P[v] && D'[P[v]] == D[P[v]];
      }
    }
  }

  /** After settling `u`, no walk to a settled vertex is lighter than its distance. */
  lemma SettleKeepsOptimal(g: seq<seq<Edge>>, w: Edge -> nat, s: int, D: seq<int>, P: seq<int>,
                           S: set<int>, F: map<int, int>, paths: map<int, seq<Edge>>, u: int, D': seq<int>)
    requires Inv(g, w, s, D, P, S, F, paths)
    requires u in F && u !in S && forall x :: x in F ==> F[u] <= F[x]
    requires |D'| == |D| && D'[u] == D[u]
    requires forall v :: v in S ==> D'[v] == D[v]
    ensures SettledOptimal(g, w, s, D', S + {u})
  {
    forall v, p | v in S + {u} && 0 <= v < |D'| && Walk(g, s, p, v)
      ensures D'[v] <= PathWeight(w, p)
    {
      if v == u {
        LowerBound(g, w, s, D, P, S, F, paths, F[u], p, u);
      }
    }
  }

  /** After settling `u`, the frontier agrees with the new distances. */
  lemma SettleKeepsFrontier(g: seq<seq<Edge>>, w: Edge -> nat, s: int, D: seq<int>, P: seq<int>,
                            S: set<int>, F: map<int, int>, paths: map<int, seq<Edge>>, u: int,
                            D': seq<int>, P': seq<int>, F': map<int, int>, paths': map<int, seq<Edge>>)
    requires Inv(g, w, s, D, P, S, F, paths)
    requires u in F && u !in S
    requires Relaxed(w, u, g[u], D, P, F - {u}, paths, D', P', F', paths')
    requires forall v :: 0 <= v < |g| && D[v] != -1 ==> D'[v] != -1 && D'[v] <= D[v]
    ensures FrontierAgrees(D', S + {u}, F')
    ensures s in F' && s in S + {u} ==> s in F && s in S
  {
    forall v | v in F'
      ensures 0 <= v < |D'| && D'[v] != -1 && F'[v] == D'[v]
      ensures v in S + {u} ==> v in F && v in S
    {
      if D'[v] == D[v] {
        assert v in F - {u};
      }
    }
    forall v | 0 <= v < |D'| && D'[v] != -1 && v !in S + {u}
      ensures v in F'
    {
      if D'[v] == D[v] {
        assert v in F - {u};
      }
    }
  }

  /** After settling a vertex `u` of least priority, settled vertices still come first. */
  lemma SettleKeepsOrder(g: seq<seq<Edge>>, w: Edge -> nat, s: int, D: seq<int>, P: seq<int>,
                         S: set<int>, F: map<int, int>, paths: map<int, seq<Edge>>, u: int,
                         D': seq<int>, P': seq<int>, F': map<int, int>, paths': map<int, seq<Edge>>)
    requires Inv(g, w, s, D, P, S, F, paths)
    requires u in F && u !in S && forall x :: x in F ==> F[u] <= F[x]
    requires Relaxed(w, u, g[u], D, P, F - {u}, paths, D', P', F', paths')
    requires forall v :: v in S ==> D'[v] == D[v]
    requires forall v :: 0 <= v < |g| && D'[v] != D[v] ==> D'[v] >= D[u]
    ensures SettledFirst(D', S + {u}, F')
  {
    forall x, v | x in S + {u} && 0 <= x < |D'| && v in F' && v !in S + {u}
      ensures D'[x] <= F'[v]
    {
      if x in S {
        assert D[x] <= F[u];
      }
      if D'[v] == D[v] {
        assert v in F - {u};
      }
    }
  }

  /** After settling `u` and relaxing its edges, every edge leaving a settled vertex is relaxed. */
  lemma SettleKeepsRelaxed(g: seq<seq<Edge>>, w: Edge -> nat, s: int, D: seq<int>, P: seq<int>,
                           S: set<int>, F: map<int, int>, paths: map<int, seq<Edge>>, u: int,
                           D': seq<int>, P': seq<int>, F': map<int, int>, paths': map<int, seq<Edge>>)
    requires Inv(g, w, s, D, P, S, F, paths)
    requires u in F && u !in S
    requires Relaxed(w, u, g[u], D, P, F - {u}, paths, D', P', F', paths')
    requires forall v :: v in S ==> D'[v] == D[v]
    requires forall v :: 0 <= v < |g| && D[v] != -1 ==> D'[v] != -1 && D'[v] <= D[v]
    ensures EdgesRelaxed(g, w, D', S + {u})
  {
    forall x, e | x in S + {u} && 0 <= x < |g| && x < |D'| && e in g[x] && 0 <= e.endId < |D'|
      ensures D'[e.endId] != -1 && D'[e.endId] <= D'[x] + w(e)
    {
      if x != u {
        assert D[e.endId] != -1 && D[e.endId] <= D[x] + w(e);
      }
    }
  }

  /**
   * Settling a vertex `u` of least frontier priority and relaxing its edges
   * preserves the search invariant, keeps settled distances and
   * predecessors, never raises a known distance, and adds no stale
   * frontier entry.
   */
  lemma SettleStep(g: seq<seq<Edge>>, w: Edge -> nat, s: int, D: seq<int>, P: seq<int>,
                   S: set<int>, F: map<int, int>, paths: map<int, seq<Edge>>, u: int,
                   D': seq<int>, P': seq<int>, F': map<int, int>, paths': map<int, seq<Edge>>)
    requires Inv(g, w, s, D, P, S, F, paths)
    requires u in F && u !in S && forall x :: x in F ==> F[u] <= F[x]
    requires Relaxed(w, u, g[u], D, P, F - {u}, paths, D', P', F', paths')
    ensures Inv(g, w, s, D', P', S + {u}, F', paths')
    ensures SettledKept(S, D, P, D', P') && NoneRaised(D, D')
    ensures s in F' && s in S + {u} ==> s in F && s in S
  {
    RelaxKeepsSettled(g, w, s, D, P, S, F, paths, u, D', P', F', paths');
    RelaxKeepsWitnesses(g, w, s, D, P, S, F, paths, u, D', P', F', paths');
    RelaxKeepsPredecessors(g, w, s, D, P, S, F, paths, u, D', P', F', paths');
    SettleKeepsOptimal(g, w, s, D, P, S, F, paths, u, D');
    SettleKeepsFrontier(g, w, s, D, P, S, F, paths, u, D', P', F', paths');
    SettleKeepsOrder(g, w, s, D, P, S, F, paths, u, D', P', F', paths');
    SettleKeepsRelaxed(g, w, s, D, P, S, F, paths, u, D', P', F', paths');
  }

  /** A search that has only discovered its start, at distance 0, satisfies the search invariant. */
  lemma StartStep(g: seq<seq<Edge>>, w: Edge -> nat, s: int, D: seq<int>, P: seq<int>)
    requires WellFormed(g) && 0 <= s < |g| && |D| == |g| && |P| == |g|
    requires D[s] == 0 && forall v :: 0 <= v < |g| && v != s ==> D[v] == -1
    requires forall v :: 0 <= v < |g| ==> P[v] == -1
    ensures Inv(g, w, s, D, P, {}, map[s := 0], map[s := []])
  {
  }

  /** Dropping the stale, already settled start from the frontier preserves the search invariant. */
  lemma SkipStep(g: seq<seq<Edge>>, w: Edge -> nat, s: int, D: seq<int>, P: seq<int>,
                 S: set<int>, F: map<int, int>, paths: map<int, seq<Edge>>, u: int)
    requires Inv(g, w, s, D, P, S, F, paths)
    requires u in F && u in S
    ensures u == s && Inv(g, w, s, D, P, S, F - {u}, paths)
  {
  }

  /** Re-seeding the start with priority 0 preserves the search invariant. */
  lemma ReseedStep(g: seq<seq<Edge>>, w: Edge -> nat, s: int, D: seq<int>, P: seq<int>,
                   S: set<int>, F: map<int, int>, paths: map<int, seq<Edge>>)
    requires Inv(g, w, s, D, P, S, F, paths)
    ensures Inv(g, w, s, D, P, S, F[s := 0], paths)
    ensures s !in S ==> F[s := 0] == F
  {
  }

  // ---------------------------------------------------------------------
  // Lemmas about a finished search.

  /** When the frontier is empty, every vertex reachable from the start is settled. */
  lemma {:induction false} ExhaustedSettlesReachable(g: seq<seq<Edge>>, w: Edge -> nat, s: int, D: seq<int>, P: seq<int>,
                                                     S: set<int>, paths: map<int, seq<Edge>>, p: seq<Edge>, v: int)
    requires Inv(g, w, s, D, P, S, map[], paths)
    requires Walk(g, s, p, v)
    ensures v in S
    decreases |p|
  {
    if p == [] {
      assert v == s && D[s] != -1;
    } else {
      var e := p[|p| - 1];
      var x := e.startId;
      ExhaustedSettlesReachable(g, w, s, D, P, S, paths, p[..|p| - 1], x);
      assert D[v] != -1;
    }
  }

  /** A settled vertex's distance is the least weight of a walk from the start. */
  lemma SettledIsShortest(g: seq<seq<Edge>>, w: Edge -> nat, s: int, D: seq<int>, P: seq<int>,
                          S: set<int>, F: map<int, int>, paths: map<int, seq<Edge>>, v: int)
    requires Inv(g, w, s, D, P, S, F, paths)
    requires v in S
    ensures IsShortest(g, w, s, v, D[v])
  {
    assert Walk(g, s, paths[v], v) && PathWeight(w, paths[v]) == D[v];
  }

  /**
   * The outcome of a finished search: the settled vertices are exactly those
   * reachable from the start, exactly those have a known distance, and each
   * settled distance is the shortest.
   */
  ghost predicate Complete(g: seq<seq<Edge>>, w: Edge -> nat, s: int, D: seq<int>, S: set<int>)
    requires |D| == |g|
  {
    && (forall v :: 0 <= v < |g| ==> (v in S <==> Reachable(g, s, v)))
    && (forall v :: 0 <= v < |g| ==> (D[v] == -1 <==> !Reachable(g, s, v)))
    && (forall v :: v in S && 0 <= v < |g| ==> IsShortest(g, w, s, v, D[v]))
  }

  /** When the frontier is empty, the search is complete. */
  lemma SearchComplete(g: seq<seq<Edge>>, w: Edge -> nat, s: int, D: seq<int>, P: seq<int>,
                       S: set<int>, paths: map<int, seq<Edge>>)
    requires Inv(g, w, s, D, P, S, map[], paths)
    ensures |D| == |g| && Complete(g, w, s, D, S)
  {
    forall v | 0 <= v < |g|
      ensures (v in S <==> Reachable(g, s, v)) && (D[v] == -1 <==> !Reachable(g, s, v))
    {
      if Reachable(g, s, v) {
        var p :| Walk(g, s, p, v);
        ExhaustedSettlesReachable(g, w, s, D, P, S, paths, p, v);
      }
      if D[v] != -1 {
        assert Walk(g, s, paths[v], v);
      }
    }
    forall v | v in S
      ensures IsShortest(g, w, s, v, D[v])
    {
      SettledIsShortest(g, w, s, D, P, S, map[], paths, v);
    }
  }

  /**
   * Two searches from the same start agree on the distance of every vertex
   * both have settled, however their budgets were split.
   */
  lemma SettledDistancesAgree(g: seq<seq<Edge>>, w: Edge -> nat, s: int,
                              D1: seq<int>, P1: seq<int>, S1: set<int>, F1: map<int, int>, paths1: map<int, seq<Edge>>,
                              D2: seq<int>, P2: seq<int>, S2: set<int>, F2: map<int, int>, paths2: map<int, seq<Edge>>,
                              v: int)
    requires Inv(g, w, s, D1, P1, S1, F1, paths1) && Inv(g, w, s, D2, P2, S2, F2, paths2)
    requires v in S1 && v in S2
    ensures D1[v] == D2[v]
  {
    assert Walk(g, s, paths1[v], v) && Walk(g, s, paths2[v], v);
  }

  // ---------------------------------------------------------------------
  // Predecessor chains.  The search invariant relates each discovered vertex
  // to a settled predecessor; a settle order on top of it rules out cycles,
  // so following predecessors always leads back to the start.

  /**
   * A settle order: every settled vertex has a rank below the number of
   * settled vertices, and each settled vertex other than the start has a
   * settled predecessor of smaller rank.
   */
  ghost predicate Ranked(s: int, P: seq<int>, S: set<int>, rank: map<int, nat>)
  {
    && S <= rank.Keys
    && (forall v {:trigger rank[v]} :: v in rank && v in S ==> rank[v] < |S|)
    && (forall v {:trigger rank[v]} :: v in rank && v in S && v != s && 0 <= v < |P| ==>
          P[v] in S && P[v] in rank && rank[P[v]] < rank[v])
  }

  /** Each edge of `p` runs from the predecessor of its end to that end. */
  ghost predicate FollowsPredecessors(P: seq<int>, p: seq<Edge>)
  {
    forall i :: 0 <= i < |p| ==> 0 <= p[i].endId < |P| && P[p[i].endId] == p[i].startId
  }

  /**
   * Settling `u`, whose predecessor is settled (or which is the start), with
   * the next rank keeps the settle order, provided settled predecessors and
   * that of `u` are kept.
   */
  lemma RankStep(s: int, P: seq<int>, P': seq<int>, S: set<int>, rank: map<int, nat>, u: int)
    requires Ranked(s, P, S, rank) && u !in S && |P'| == |P|
    requires u != s && 0 <= u < |P| ==> P[u] in S
    requires 0 <= u < |P| ==> P'[u] == P[u]
    requires forall v {:trigger P'[v]} :: v in S && 0 <= v < |P| ==> P'[v] == P[v]
    ensures Ranked(s, P', S + {u}, rank[u := |S|])
  {
    AddFresh(S, u);
  }

  /**
   * Following predecessors back from a discovered vertex `v` gives a walk
   * from the start whose weight is the distance of `v`.
   */
  lemma {:induction false} PredecessorsTrace(g: seq<seq<Edge>>, w: Edge -> nat, s: int, D: seq<int>, P: seq<int>,
                                             S: set<int>, F: map<int, int>, paths: map<int, seq<Edge>>,
                                             rank: map<int, nat>, v: int)
    requires Inv(g, w, s, D, P, S, F, paths) && Ranked(s, P, S, rank)
    requires 0 <= v < |g| && D[v] != -1
    ensures exists p :: Walk(g, s, p, v) && PathWeight(w, p) == D[v] && FollowsPredecessors(P, p)
    decreases if v in S && v in rank then rank[v] else |S|
  {
    if v == s {
      assert Walk(g, s, [], v) && PathWeight(w, []) == D[v] && FollowsPredecessors(P, []);
    } else {
      var x := P[v];
      assert x in S && 0 <= x < |g| && D[x] != -1;
      var e :| e in g[x] && e.endId == v && D[v] == D[x] + w(e);
      PredecessorsTrace(g, w, s, D, P, S, F, paths, rank, x);
      var q :| Walk(g, s, q, x) && PathWeight(w, q) == D[x] && FollowsPredecessors(P, q);
      WalkExtend(g, w, s, q, x, e);
      var p := q + [e];
      forall i | 0 <= i < |p|
        ensures 0 <= p[i].endId < |P| && P[p[i].endId] == p[i].startId
      {
        if i < |q| {
          assert p[i] == q[i];
        }
      }
      assert Walk(g, s, p, v) && PathWeight(w, p) == D[v] && FollowsPredecessors(P, p);
    }
  }

  /** Every discovered vertex is reached from the start along predecessor links, at its distance. */
  ghost predicate TracedBack(g: seq<seq<Edge>>, w: Edge -> nat, s: int, D: seq<int>, P: seq<int>)
  {
    forall v :: 0 <= v < |g| && v < |D| && D[v] != -1 ==>
      exists p :: Walk(g, s, p, v) && PathWeight(w, p) == D[v] && FollowsPredecessors(P, p)
  }

  /** In a search with a settle order, every discovered vertex traces back to the start. */
  lemma PredecessorsTraceAll(g: seq<seq<Edge>>, w: Edge -> nat, s: int, D: seq<int>, P: seq<int>,
                             S: set<int>, F: map<int, int>, paths: map<int, seq<Edge>>, rank: map<int, nat>)
    requires Inv(g, w, s, D, P, S, F, paths) && Ranked(s, P, S, rank)
    ensures TracedBack(g, w, s, D, P)
  {
    forall v | 0 <= v < |g| && D[v] != -1
      ensures exists p :: Walk(g, s, p, v) && PathWeight(w, p) == D[v] && FollowsPredecessors(P, p)
    {
      PredecessorsTrace(g, w, s, D, P, S, F, paths, rank, v);
    }
  }

  /** The vertex ids 0 .. n - 1. */
  ghost function Ids(n: nat): (r: set<int>)
    ensures forall v :: v in r <==> 0 <= v < n
    ensures |r| == n
  {
    if n == 0 then {} else Ids(n - 1) + {n - 1}
  }

  /** Adding a new member to a set adds one to its size. */
  lemma AddFresh(S: set<int>, u: int)
    requires u !in S
    ensures |S + {u}| == |S| + 1
  {
  }

  /** Removing a key present in a map makes the map smaller. */
  lemma RemoveKey(F: map<int, int>, u: int)
    requires u in F
    ensures |F - {u}| < |F|
  {
    assert (F - {u}).Keys == F.Keys - {u};
  }

  /** Once all `n` vertices are settled, a frontier holding no settled vertex is empty. */
  lemma FullSettledEmptiesFrontier(S: set<int>, F: map<int, int>, n: nat)
    requires forall v :: v in S ==> 0 <= v < n
    requires forall v :: v in F ==> 0 <= v < n && v !in S
    requires |S| == n
    ensures F == map[]
  {
    IdsBound(S, n);
    forall v | v in F.Keys
      ensures v in S
    {
    }
    assert F.Keys == {};
  }

  /** A set of ids below `n` has at most `n` members, and all of them when it has `n`. */
  lemma IdsBound(S: set<int>, n: nat)
    requires forall v :: v in S ==> 0 <= v < n
    ensures |S| <= n
    ensures |S| == n ==> forall v :: 0 <= v < n ==> v in S
  {
    var all := Ids(n);
    assert S <= all;
    if |S| == n {
      assert |all - S| == 0;
      forall v | 0 <= v < n
        ensures v in S
      {
        assert v in all;
      }
    }
  }

  // ---------------------------------------------------------------------

  class ShortestPaths {
    /** The graph searched. */
    const g: seq<seq<Edge>>
    /** The weigher giving each edge its weight. */
    const weigher: Edge -> nat
    /** The start of the current search, or -1 when none has been set. */
    var startId: int
    /** Best known distance from the start to each id, or -1 when unknown. */
    const distances: array<int>
    /** Previous vertex on the best known path to each id, or -1. */
    const predecessors: array<int>
    /** Discovered, unsettled ids keyed by best known distance. */
    const frontier: HeapMinQueue<int>
    /** Ids whose shortest distance from the start is known. */
    var settledIds: set<int>
    /** A walk from the start witnessing each known distance. */
    ghost var paths: map<int, seq<Edge>>
    /** The order in which the settled ids were settled. */
    ghost var rank: map<int, nat>

    ghost predicate Shape()
      reads frontier
    {
      && WellFormed(g)
      && distances.Length == |g| && predecessors.Length == |g|
      && distances != predecessors
      && frontier.Valid()
    }

    /** The class invariant: cleared when no start is set, the search invariant otherwise. */
    ghost predicate Valid()
      reads this, distances, predecessors, frontier
    {
      && Shape()
      && (startId == -1 ==>
            && (forall v :: 0 <= v < |g| ==> distances[v] == -1 && predecessors[v] == -1)
            && settledIds == {} && frontier.Contents() == map[])
      && (startId != -1 ==>
            && Inv(g, weigher, startId, distances[..], predecessors[..], settledIds, frontier.Contents(), paths)
            && Ranked(startId, predecessors[..], settledIds, rank))
    }

    /** Create a solver for `graph` weighted by `weigher`, with no start set. */
    constructor (graph: seq<seq<Edge>>, weigher: Edge -> nat)
      requires WellFormed(graph)
      ensures Valid() && startId == -1
      ensures g == graph && this.weigher == weigher
      ensures fresh(distances) && fresh(predecessors) && fresh(frontier)
    {
      g := graph;
      this.weigher := weigher;
      distances := new int[|graph|];
      predecessors := new int[|graph|];
      settledIds := {};
      frontier := new HeapMinQueue<int>();
      paths := map[];
      startId := -1;
      new;
      Reset();
    }

    /** Discard all results: every distance and predecessor -1, nothing settled or in the frontier, no start. */
    method Reset()
      requires Shape()
      modifies this, distances, predecessors, frontier
      ensures Valid() && startId == -1
      ensures forall v :: 0 <= v < |g| ==> distances[v] == -1 && predecessors[v] == -1
      ensures settledIds == {} && frontier.Contents() == map[]
    {
      forall i | 0 <= i < distances.Length {
        distances[i] := -1;
      }
      forall i | 0 <= i < predecessors.Length {
        predecessors[i] := -1;
      }
      frontier.Clear();
      settledIds := {};
      startId := -1;
    }

    /** The number of settled vertices, which never exceeds the vertex count. */
    function SettledCount(): (r: nat)
      reads this, distances, predecessors, frontier
      requires Valid()
      ensures r <= |g|
    {
      IdsBound(settledIds, |g|);
      |settledIds|
    }

    /** The number of vertices of the graph. */
    function VertexCount(): (r: nat)
      ensures r == |g|
    {
      |g|
    }

    /** Whether every vertex reachable from the start is settled; false while no start is set. */
    function AllPathsFound(): (r: bool)
      reads this, frontier
      requires frontier.Valid()
      ensures r <==> frontier.Contents() == map[] && startId >= 0
    {
      frontier.IsEmpty() && startId >= 0
    }

    /** Start a new search from `s`, discarding all earlier results. */
    method SetStart(s: int)
      requires Valid() && 0 <= s < |g|
      modifies this, distances, predecessors, frontier
      ensures Valid() && startId == s
      ensures distances[s] == 0 && forall v :: 0 <= v < |g| && v != s ==> distances[v] == -1
      ensures forall v :: 0 <= v < |g| ==> predecessors[v] == -1
      ensures settledIds == {} && frontier.Contents() == map[s := 0]
    {
      Reset();
      startId := s;
      distances[s] := 0;
      frontier.AddOrUpdate(s, 0);
      paths := map[s := []];
      rank := map[];
      StartStep(g, weigher, s, distances[..], predecessors[..]);
    }

    /** Find the shortest paths from `s` to every vertex reachable from it. */
    method FindAllPaths(s: int)
      requires Valid() && 0 <= s < |g|
      modifies this, distances, predecessors, frontier
      ensures Valid() && startId == s && AllPathsFound()
      ensures Complete(g, weigher, s, distances[..], settledIds)
      ensures TracedBack(g, weigher, s, distances[..], predecessors[..])
    {
      SetStart(s);
      ExtendSearch(|g|);
      ghost var D, S, F := distances[..], settledIds, frontier.Contents();
      IdsBound(S, |g|);
      if |S| == |g| {
        FullSettledEmptiesFrontier(S, F, |g|);
      }
      SearchComplete(g, weigher, s, D, predecessors[..], S, paths);
    }

    /**
     * Settle at most `maxToSettle` more vertices, resuming the current
     * search.  The start is re-seeded into the frontier first, and a popped
     * vertex that is already settled is skipped without counting.
     */
    method ExtendSearch(maxToSettle: int)
      requires Valid() && startId >= 0 && maxToSettle >= 0
      modifies this, distances, predecessors, frontier
      ensures Valid() && startId == old(startId)
      ensures old(settledIds) <= settledIds
      ensures |settledIds| <= |old(settledIds)| + maxToSettle
      ensures |settledIds| < |old(settledIds)| + maxToSettle ==> AllPathsFound()
      ensures SettledKept(old(settledIds), old(distances[..]), old(predecessors[..]), distances[..], predecessors[..])
      ensures NoneRaised(old(distances[..]), distances[..])
      ensures startId in frontier.Contents() && startId in settledIds ==> startId in old(settledIds)
      ensures maxToSettle == 0 ==>
                && settledIds == old(settledIds) && distances[..] == old(distances[..])
                && predecessors[..] == old(predecessors[..])
                && frontier.Contents() == old(frontier.Contents())[startId := 0]
      ensures maxToSettle == 0 ==> !AllPathsFound()
      ensures TracedBack(g, weigher, startId, distances[..], predecessors[..])
    {
      Reseed();
      var settledCount := 0;
      while !AllPathsFound() && settledCount < maxToSettle
        invariant Valid() && startId == old(startId)
        invariant old(settledIds) <= settledIds
        invariant 0 <= settledCount <= maxToSettle && |settledIds| == |old(settledIds)| + settledCount
        invariant SettledKept(old(settledIds), old(distances[..]), old(predecessors[..]), distances[..], predecessors[..])
        invariant NoneRaised(old(distances[..]), distances[..])
        invariant startId in frontier.Contents() && startId in settledIds ==> startId in old(settledIds)
        invariant maxToSettle == 0 ==>
                    && settledIds == old(settledIds) && distances[..] == old(distances[..])
                    && predecessors[..] == old(predecessors[..])
                    && frontier.Contents() == old(frontier.Contents())[startId := 0]
        decreases maxToSettle - settledCount, |frontier.Contents()|
      {
        if frontier.IsEmpty() {
          break;
        }
        ghost var S0, D0, P0, F0 := settledIds, distances[..], predecessors[..], frontier.Contents();
        var u, settled := SettleNext();
        SettledKeptTrans(old(settledIds), S0, old(distances[..]), old(predecessors[..]), D0, P0, distances[..], predecessors[..]);
        NoneRaisedTrans(old(distances[..]), D0, distances[..]);
        if settled {
          AddFresh(S0, u);
          settledCount := settledCount + 1;
        } else {
          RemoveKey(F0, u);
        }
      }
      PredecessorsTraceAll(g, weigher, startId, distances[..], predecessors[..], settledIds, frontier.Contents(), paths, rank);
    }

    /** Put the start back into the frontier with distance 0, as every search extension does first. */
    method Reseed()
      requires Valid() && startId >= 0
      modifies distances, frontier
      ensures Valid()
      ensures distances[..] == old(distances[..]) && predecessors[..] == old(predecessors[..])
      ensures frontier.Contents() == old(frontier.Contents())[startId := 0]
    {
      ghost var D0, F0 := distances[..], frontier.Contents();
      ReseedStep(g, weigher, startId, D0, predecessors[..], settledIds, F0, paths);
      distances[startId] := 0;
      frontier.AddOrUpdate(startId, 0);
      assert distances[..] == D0 && frontier.Contents() == F0[startId := 0];
    }

    /**
     * One round of the search loop: pop the frontier vertex `u` of least
     * priority; skip it when it is already settled (only the re-seeded start
     * can be), otherwise settle it and relax the edges leaving it.
     */
    method SettleNext() returns (u: int, settled: bool)
      requires Valid() && startId >= 0 && frontier.Contents() != map[]
      modifies this, distances, predecessors, frontier
      ensures Valid() && startId == old(startId)
      ensures old(frontier.Contents()) != map[] ==> u in old(frontier.Contents())
      ensures forall v :: v in old(frontier.Contents()) ==> old(frontier.Contents())[u] <= old(frontier.Contents())[v]
      ensures settled <==> u !in old(settledIds)
      ensures settled ==> settledIds == old(settledIds) + {u}
      ensures !settled ==> && settledIds == old(settledIds)
                           && distances[..] == old(distances[..]) && predecessors[..] == old(predecessors[..])
                           && frontier.Contents() == old(frontier.Contents()) - {u}
      ensures SettledKept(old(settledIds), old(distances[..]), old(predecessors[..]), distances[..], predecessors[..])
      ensures NoneRaised(old(distances[..]), distances[..])
      ensures startId in frontier.Contents() && startId in settledIds ==> startId in old(frontier.Contents()) && startId in old(settledIds)
    {
      ghost var s, D, P, S, F, ps := startId, distances[..], predecessors[..], settledIds, frontier.Contents(), paths;
      assert Inv(g, weigher, s, D, P, S, F, ps);
      var r := frontier.Remove();
      u := r.value;
      assert u in F && forall x :: x in F ==> F[u] <= F[x];
      assert distances[..] == D && predecessors[..] == P && frontier.Contents() == F - {u};
      if u in settledIds {
        SkipStep(g, weigher, s, D, P, S, F, ps, u);
        assert startId == s && settledIds == S && paths == ps;
        return u, false;
      }
      Settle(u, F);
      settled := true;
    }

    /**
     * Settle `u`, just popped from the frontier `F` with least priority, and
     * relax the edges leaving it.
     */
    method Settle(u: int, ghost F: map<int, int>)
      requires Shape() && startId >= 0 && u !in settledIds
      requires Inv(g, weigher, startId, distances[..], predecessors[..], settledIds, F, paths)
      requires u in F && (forall x :: x in F ==> F[u] <= F[x]) && frontier.Contents() == F - {u}
      requires Ranked(startId, predecessors[..], settledIds, rank)
      modifies this`settledIds, this`paths, this`rank, distances, predecessors, frontier
      ensures Valid() && settledIds == old(settledIds) + {u}
      ensures SettledKept(old(settledIds), old(distances[..]), old(predecessors[..]), distances[..], predecessors[..])
      ensures NoneRaised(old(distances[..]), distances[..])
      ensures startId in frontier.Contents() && startId in settledIds ==> startId in F && startId in old(settledIds)
    {
      ghost var s, D, P, S, ps := startId, distances[..], predecessors[..], settledIds, paths;
      assert u != s ==> P[u] in S;
      rank := rank[u := |settledIds|];
      settledIds := settledIds + {u};
      RelaxEdges(u, D, P, F - {u}, ps);
      ghost var D', P', F', ps' := distances[..], predecessors[..], frontier.Contents(), paths;
      SettleStep(g, weigher, s, D, P, S, F, ps, u, D', P', F', ps');
      assert P'[u] == P[u];
      RankStep(s, P, P', S, old(rank), u);
      assert startId == s && settledIds == S + {u};
    }

    /**
     * Relax every edge leaving the settled vertex `u`: an edge's end gets
     * distance `distances[u] + weight` when its distance is unknown or larger,
     * with `u` as predecessor and the new distance as frontier priority.
     */
    method RelaxEdges(u: int, ghost D0: seq<int>, ghost P0: seq<int>, ghost F0: map<int, int>, ghost ps0: map<int, seq<Edge>>)
      requires Shape() && 0 <= u < |g| && distances[u] >= 0 && u in paths
      requires forall v :: v in frontier.Contents() ==> 0 <= v < |g|
      requires D0 == distances[..] && P0 == predecessors[..] && F0 == frontier.Contents() && ps0 == paths
      modifies distances, predecessors, frontier, this`paths
      ensures frontier.Valid()
      ensures Relaxed(weigher, u, g[u], D0, P0, F0, ps0, distances[..], predecessors[..], frontier.Contents(), paths)
    {
      RelaxNone(weigher, u, D0, P0, F0, ps0);
      var edges := g[u];
      for i := 0 to |edges|
        invariant frontier.Valid()
        invariant Relaxed(weigher, u, edges[..i], D0, P0, F0, ps0, distances[..], predecessors[..], frontier.Contents(), paths)
      {
        ghost var D, P, F, ps := distances[..], predecessors[..], frontier.Contents(), paths;
        var e := edges[i];
        assert e in g[u] && edges[..i + 1] == edges[..i] + [e];
        var currentDistance := distances[u];
        var weight := weigher(e);
        var dist := currentDistance + weight;
        var targetDistance := distances[e.endId];
        if targetDistance == -1 || dist < targetDistance {
          assert dist == D[u] + weigher(e) && targetDistance == D[e.endId];
          RelaxUpdate(weigher, u, edges[..i], e, D0, P0, F0, ps0, D, P, F, ps, dist);
          distances[e.endId] := dist;
          predecessors[e.endId] := u;
          frontier.AddOrUpdate(e.endId, dist);
          paths := paths[e.endId := paths[u] + [e]];
          assert distances[..] == D[e.endId := dist] && predecessors[..] == P[e.endId := u];
        } else {
          RelaxKeep(weigher, u, edges[..i], e, D0, P0, F0, ps0, D, P, F, ps);
        }
      }
      assert edges[..|edges|] == edges;
    }
  }
}
