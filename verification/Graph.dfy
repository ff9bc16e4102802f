/** A directed graph with weighted edges that keeps the indegree of every vertex, and its
    topological sort by taking away vertices without incoming edges.
 */
module Graph {

  import opened Common

  type Edges = map<string, map<string, int>>

  /** The vertices with an edge to `v`. */
  ghost function In(e: Edges, v: string): set<string> {
    set u | u in e && v in e[u]
  }

  ghost predicate Edge(e: Edges, u: string, v: string) {
    u in e && v in e[u]
  }

  /** Edges lead to vertices, and `indegree` counts those that lead to each. */
  ghost predicate Counted(e: Edges, indegree: map<string, int>) {
    && indegree.Keys == e.Keys
    && (forall u, v :: Edge(e, u, v) ==> v in e)
    && (forall v :: v in e ==> indegree[v] == |In(e, v)|)
  }

  /** The graph without the vertices of `d`. */
  ghost function Sub(e: Edges, d: set<string>): Edges {
    map u | u in e && u !in d :: e[u] - d
  }

  /** The graph with the edges to `name` taken away from the vertices of `done`. */
  ghost function Cut(e: Edges, done: set<string>, name: string): Edges {
    map u | u in e :: if u in done then e[u] - {name} else e[u]
  }

  // ---------- counting edges

  lemma SameIn(e: Edges, f: Edges, v: string)
    requires f.Keys == e.Keys && forall u :: u in e ==> (v in e[u] <==> v in f[u])
    ensures In(f, v) == In(e, v)
  {}

  lemma MoreIn(e: Edges, f: Edges, u: string, v: string)
    requires f.Keys == e.Keys && u in e && v !in e[u] && v in f[u]
    requires forall w :: w in e && w != u ==> (v in e[w] <==> v in f[w])
    ensures |In(f, v)| == |In(e, v)| + 1
  {
    assert In(f, v) == In(e, v) + {u};
  }

  lemma SubIn(e: Edges, name: string, v: string)
    requires v in e && v != name
    ensures In(Sub(e, {name}), v) == In(e, v) - {name}
    ensures |In(Sub(e, {name}), v)| == |In(e, v)| - (if Edge(e, name, v) then 1 else 0)
  {}

  lemma SubMore(e: Edges, d: set<string>, k: string)
    ensures Sub(Sub(e, d), {k}) == Sub(e, d + {k})
  {
    assert forall u :: u in e && u !in d + {k} ==> e[u] - d - {k} == e[u] - (d + {k});
  }

  // ---------- what the updates keep

  ghost function WithVertex(e: Edges, v: string): Edges {
    if v in e then e else e[v := map[]]
  }

  ghost function WithEdge(e: Edges, u: string, v: string, weight: int): Edges {
    var f := WithVertex(WithVertex(e, u), v);
    if v in f[u] then f else f[u := f[u][v := weight]]
  }

  /** A new edge brings its ends and nothing else, and an edge that exists keeps its weight. */
  lemma EdgeAdded(e: Edges, u: string, v: string, weight: int)
    ensures var f := WithEdge(e, u, v, weight);
            && f.Keys == e.Keys + {u, v} && Edge(f, u, v)
            && f[u][v] == (if Edge(e, u, v) then e[u][v] else weight)
            && (forall x, y :: (x, y) != (u, v) ==> (Edge(f, x, y) <==> Edge(e, x, y)))
            && (forall x, y :: (x, y) != (u, v) && Edge(e, x, y) ==> Edge(f, x, y) && f[x][y] == e[x][y])
  {}

  lemma NewCounted(e: Edges, d: map<string, int>, name: string)
    requires Counted(e, d) && name !in e
    ensures Counted(e[name := map[]], d[name := 0])
  {
    var f := e[name := map[]];
    assert forall u :: !Edge(e, u, name);
    assert In(f, name) == {} by { assert forall u :: u in f ==> !Edge(e, u, name); }
    forall v | v in e ensures In(f, v) == In(e, v) {}
    forall u, v | Edge(f, u, v) ensures v in f { assert Edge(e, u, v); }
  }

  lemma EdgeCounted(e: Edges, d: map<string, int>, from: string, to: string, weight: int)
    requires Counted(e, d) && from in e && to in e && to !in e[from]
    ensures Counted(e[from := e[from][to := weight]], d[to := d[to] + 1])
  {
    hide In;
    var f := e[from := e[from][to := weight]];
    MoreIn(e, f, from, to);
    forall v | v in e && v != to ensures In(f, v) == In(e, v) { SameIn(e, f, v); }
    forall u, v | Edge(f, u, v) ensures v in f {
      if !(u == from && v == to) { assert Edge(e, u, v); }
    }
  }

  lemma LessCounted(e: Edges, d: map<string, int>, from: string, to: string)
    requires Counted(e, d) && from in e && to in e && to in e[from]
    ensures Counted(e[from := e[from] - {to}], d[to := d[to] - 1])
  {
    hide In;
    var f := e[from := e[from] - {to}];
    MoreIn(f, e, from, to);
    forall v | v in e && v != to ensures In(f, v) == In(e, v) { SameIn(e, f, v); }
    forall u, v | Edge(f, u, v) ensures v in f { assert Edge(e, u, v); }
  }

  /** Without a vertex the vertices behind it have one edge less. */
  lemma SubCounted(e: Edges, d: map<string, int>, name: string, less: map<string, int>)
    requires Counted(e, d) && name in e && less.Keys == e.Keys - {name}
    requires forall v :: v in less ==> less[v] == d[v] - (if Edge(e, name, v) then 1 else 0)
    ensures Counted(Sub(e, {name}), less)
  {
    var f := Sub(e, {name});
    assert f.Keys == e.Keys - {name};
    forall v | v in f ensures less[v] == |In(f, v)| { SubIn(e, name, v); }
    forall u, v | Edge(f, u, v) ensures v in f { assert Edge(e, u, v); }
  }

  lemma Fewer(a: set<string>, b: set<string>)
    requires a <= b
    ensures |a| <= |b| && (|a| == |b| ==> a == b)
  {
    var c := b - a;
    assert b == a + c;
  }

  // ---------- orders and cycles

  /** Every edge to a vertex of `r` comes from one further to the front. */
  ghost predicate Ordered(e: Edges, r: seq<string>) {
    && NoDup(r) && (forall i :: 0 <= i < |r| ==> r[i] in e)
    && forall i, u :: 0 <= i < |r| && Edge(e, u, r[i]) ==> u in r[..i]
  }

  /** All vertices in an order in which edges lead forward. */
  ghost predicate Sorted(e: Edges, r: seq<string>) {
    Ordered(e, r) && forall v :: v in e ==> v in r
  }

  ghost predicate Walk(e: Edges, p: seq<string>) {
    |p| > 0 && forall i :: 0 <= i < |p| - 1 ==> Edge(e, p[i], p[i + 1])
  }

  ghost predicate Cyclic(e: Edges) {
    exists p :: Walk(e, p) && |p| >= 2 && p[0] == p[|p| - 1]
  }

  /** Edges lead to vertices. */
  ghost predicate Closed(e: Edges) {
    forall u, v :: Edge(e, u, v) ==> v in e
  }

  /** `rest` is what is left of `e` without the vertices of `r`, which are in order. */
  ghost predicate Partial(e: Edges, rest: Edges, r: seq<string>) {
    Ordered(e, r) && rest == Sub(e, set v | v in r)
  }

  lemma SortedNone(e: Edges)
    ensures Partial(e, e, [])
  {
    var none := set v | v in [];
    assert forall u :: u in e ==> e[u] - none == e[u];
    assert Sub(e, none) == e;
  }

  /** A vertex without incoming edges comes next. */
  lemma PartialNext(e: Edges, rest: Edges, d: map<string, int>, r: seq<string>, k: string)
    requires Partial(e, rest, r) && Counted(rest, d) && k in rest && d[k] == 0
    requires Closed(e)
    ensures Partial(e, Sub(rest, {k}), r + [k])
  {
    var q := r + [k];
    var done := set v | v in r;
    assert (set v | v in q) == done + {k};
    SubMore(e, done, k);
    forall u | Edge(e, u, k) ensures u in r {
      assert u in r || u in In(rest, k);
    }
    forall i, u | 0 <= i < |q| && Edge(e, u, q[i]) ensures u in q[..i] {
      if i < |r| { assert u in r[..i] && q[..i] == r[..i]; } else { assert q[..i] == r; }
    }
  }

  lemma Place(e: Edges, r: seq<string>, u: string, v: string) returns (b: nat)
    requires Sorted(e, r) && Edge(e, u, v) && v in e
    ensures b < |r| && r[b] == v && u in r[..b]
  {
    assert v in r;
    b :| 0 <= b < |r| && r[b] == v;
  }

  lemma {:induction false} WalkForward(e: Edges, r: seq<string>, p: seq<string>, i: nat)
    requires Sorted(e, r) && Closed(e) && Walk(e, p) && |p| >= 2 && 1 <= i < |p|
    ensures exists a, b :: 0 <= a < b < |r| && r[a] == p[0] && r[b] == p[i]
  {
    assert Edge(e, p[i - 1], p[i - 1 + 1]);
    assert Edge(e, p[0], p[0 + 1]) && p[0] in e;
    var b := Place(e, r, p[i - 1], p[i]);
    if i == 1 {
      var a :| 0 <= a < b && r[a] == p[0];
    } else {
      WalkForward(e, r, p, i - 1);
      var a, c :| 0 <= a < c < |r| && r[a] == p[0] && r[c] == p[i - 1];
      assert c < b;
    }
  }

  lemma SortedAcyclic(e: Edges, r: seq<string>)
    requires Sorted(e, r) && Closed(e)
    ensures !Cyclic(e)
  {
    forall p | Walk(e, p) && |p| >= 2 ensures p[0] != p[|p| - 1] {
      WalkForward(e, r, p, |p| - 1);
    }
  }

  /** With nothing left the order is complete. */
  lemma SortedAll(e: Edges, rest: Edges, r: seq<string>)
    requires Partial(e, rest, r) && rest.Keys == {} && Closed(e)
    ensures Sorted(e, r) && !Cyclic(e) && (r == [] <==> e == map[])
  {
    forall v | v in e ensures v in r {
      assert v in r || v in rest.Keys;
    }
    assert r != [] ==> r[0] in e;
    if r == [] { assert e.Keys == {}; }
    SortedAcyclic(e, r);
  }

  // ---------- no vertex without incoming edges

  ghost predicate Reached(e: Edges, v: string) {
    exists u :: Edge(e, u, v)
  }

  lemma From(e: Edges, v: string) returns (u: string)
    requires Reached(e, v)
    ensures Edge(e, u, v) && u in e
  {
    u :| Edge(e, u, v);
  }

  lemma WalkMore(e: Edges, u: string, q: seq<string>)
    requires Walk(e, q) && Edge(e, u, q[0])
    ensures Walk(e, [u] + q)
  {}

  /** A walk of any length, where every vertex can be reached from another. */
  lemma {:induction false} BackWalk(e: Edges, n: nat) returns (p: seq<string>)
    requires e != map[] && forall v :: v in e ==> Reached(e, v)
    ensures Walk(e, p) && |p| == n + 1 && forall i :: 0 <= i < |p| ==> p[i] in e
  {
    hide Reached, Edge;
    if n == 0 {
      var v :| v in e;
      p := [v];
    } else {
      var q := BackWalk(e, n - 1);
      assert q[0] in e;
      var u := From(e, q[0]);
      p := [u] + q;
      WalkMore(e, u, q);
    }
  }

  lemma Entered(e: Edges, d: map<string, int>, v: string)
    requires Counted(e, d) && v in e && v in d && d[v] != 0
    ensures Reached(e, v)
  {
    assert d[v] == |In(e, v)|;
    var u :| u in In(e, v);
    assert Edge(e, u, v);
  }

  lemma {:induction false} Pigeons(p: seq<string>, s: set<string>)
    requires NoDup(p) && forall i :: 0 <= i < |p| ==> p[i] in s
    ensures |p| <= |s|
  {
    if p != [] {
      var last := p[|p| - 1];
      Pigeons(p[..|p| - 1], s - {last});
    }
  }

  lemma Repeats(p: seq<string>, s: set<string>)
    requires |p| == |s| + 1 && forall i :: 0 <= i < |p| ==> p[i] in s
    ensures exists i, j :: 0 <= i < j < |p| && p[i] == p[j]
  {
    if NoDup(p) { Pigeons(p, s); }
  }

  lemma CycleFrom(e: Edges, rest: Edges, r: seq<string>, p: seq<string>, i: nat, j: nat)
    requires Partial(e, rest, r) && Walk(rest, p) && i < j < |p| && p[i] == p[j]
    ensures Cyclic(e)
  {
    var c := p[i..j + 1];
    forall k | 0 <= k < |c| - 1 ensures Edge(e, c[k], c[k + 1]) {
      var m := i + k;
      assert Edge(rest, p[m], p[m + 1]);
    }
    assert Walk(e, c) && c[0] == c[|c| - 1];
  }

  lemma CountedKeys(e: Edges, d: map<string, int>)
    requires Counted(e, d)
    ensures d.Keys == e.Keys && Closed(e)
  {}

  /** Without a vertex to take away there is a cycle. */
  lemma Stuck(e: Edges, rest: Edges, d: map<string, int>, r: seq<string>)
    requires Partial(e, rest, r) && Counted(rest, d) && rest != map[] && forall v :: v in d ==> d[v] != 0
    ensures Cyclic(e)
  {
    hide Counted, Partial, Cyclic, In, Reached, Edge;
    CountedKeys(rest, d);
    forall v | v in rest ensures Reached(rest, v) { Entered(rest, d, v); }
    var p := BackWalk(rest, |rest.Keys|);
    Repeats(p, rest.Keys);
    var i, j :| 0 <= i < j < |p| && p[i] == p[j];
    CycleFrom(e, rest, r, p, i, j);
  }

  lemma CountedTo(e: Edges, d: map<string, int>, u: string, v: string)
    requires Counted(e, d)
    ensures Edge(e, u, v) ==> v in e
  {}

  // ---------- the graph

  class Digraph {
    var edges: Edges
    var indegree: map<string, int>

    ghost predicate Valid()
      reads this
    {
      Counted(edges, indegree)
    }

    /** A copy of a graph, or an empty one of two empty maps. */
    constructor (edges: Edges, indegree: map<string, int>)
      requires Counted(edges, indegree)
      ensures Valid() && this.edges == edges && this.indegree == indegree
    {
      this.edges, this.indegree := edges, indegree;
    }

    method NewVertex(name: string)
      requires Valid() && name !in edges
      modifies this
      ensures Valid() && edges == old(edges)[name := map[]]
    {
      NewCounted(edges, indegree, name);
      edges := edges[name := map[]];
      indegree := indegree[name := 0];
    }

    method AddVertex(name: string)
      requires Valid()
      modifies this
      ensures Valid() && edges == WithVertex(old(edges), name)
    {
      if name !in edges { NewVertex(name); }
    }

    method AddEdge(from: string, to: string, weight: int)
      requires Valid()
      modifies this
      ensures Valid() && edges == WithEdge(old(edges), from, to, weight)
    {
      hide Counted;
      if from !in edges { NewVertex(from); }
      if to !in edges { NewVertex(to); }
      if to !in edges[from] {
        EdgeCounted(edges, indegree, from, to, weight);
        CountedKeys(edges, indegree);
        edges := edges[from := edges[from][to := weight]];
        indegree := indegree[to := indegree[to] + 1];
      }
    }

    method DelEdge(from: string, to: string) returns (rc: int)
      requires Valid()
      modifies this
      ensures Valid() && (rc == 0 <==> Edge(old(edges), from, to)) && (rc == 0 || rc == -1)
      ensures rc != 0 ==> edges == old(edges) && indegree == old(indegree)
      ensures rc == 0 ==> edges == old(edges)[from := old(edges)[from] - {to}]
    {
      hide Counted;
      if from !in edges { return -1; }
      CountedTo(edges, indegree, from, to);
      if to !in edges { return -1; }
      if to !in edges[from] { return -1; }
      LessCounted(edges, indegree, from, to);
      CountedKeys(edges, indegree);
      edges := edges[from := edges[from] - {to}];
      indegree := indegree[to := indegree[to] - 1];
      return 0;
    }

    /** Takes away the edges to `name`. */
    method CutEdges(name: string)
      modifies `edges
      ensures edges == Cut(old(edges), old(edges.Keys), name)
    {
      var rest := edges.Keys;
      ghost var e := edges;
      while rest != {}
        invariant rest <= e.Keys && edges == Cut(e, e.Keys - rest, name)
        decreases |rest|
      {
        var k :| k in rest;
        edges := edges[k := edges[k] - {name}];
        rest := rest - {k};
      }
    }

    /** Lowers the indegree of the vertices of `to`. */
    method LowerDegrees(to: set<string>)
      requires to <= indegree.Keys
      modifies `indegree
      ensures indegree.Keys == old(indegree.Keys)
      ensures forall v :: v in indegree ==> indegree[v] == old(indegree[v]) - (if v in to then 1 else 0)
    {
      var rest := to;
      while rest != {}
        invariant rest <= to && indegree.Keys == old(indegree.Keys)
        invariant forall v :: v in indegree ==> indegree[v] == old(indegree[v]) - (if v in to - rest then 1 else 0)
        decreases |rest|
      {
        var k :| k in rest;
        indegree := indegree[k := indegree[k] - 1];
        rest := rest - {k};
      }
    }

    /** Takes a vertex away with all its edges. */
    method DelVertex(name: string) returns (rc: int)
      requires Valid()
      modifies this
      ensures Valid() && (rc == 0 <==> name in old(edges)) && (rc == 0 || rc == -1)
      ensures rc != 0 ==> edges == old(edges) && indegree == old(indegree)
      ensures rc == 0 ==> edges == Sub(old(edges), {name})
    {
      hide Counted;
      if name !in edges { return -1; }
      CountedKeys(edges, indegree);
      CutEdges(name);
      ghost var e, d := old(edges), indegree;
      assert edges[name].Keys == e[name].Keys - {name};
      assert forall v :: v in e[name] <==> Edge(e, name, v);
      LowerDegrees(edges[name].Keys);
      assert edges - {name} == Sub(e, {name});
      SubCounted(e, d, name, indegree - {name});
      edges := edges - {name};
      indegree := indegree - {name};
      return 0;
    }

    /** One pass over the vertices of what is left. */
    static method Pass(ghost e: Edges, g: Digraph, done: seq<string>) returns (r: seq<string>)
      requires g.Valid() && Partial(e, g.edges, done) && Closed(e)
      modifies g
      ensures g.Valid() && Partial(e, g.edges, r) && g.indegree.Keys == g.edges.Keys <= old(g.edges.Keys)
      ensures |g.indegree| <= old(|g.indegree|)
      ensures |g.indegree| == old(|g.indegree|) ==>
                g.edges == old(g.edges) && r == done && forall v :: v in g.indegree ==> g.indegree[v] != 0
    {
      hide Counted, Partial;
      r := done;
      CountedKeys(g.edges, g.indegree);
      var keys := g.indegree.Keys;
      ghost var all := keys;
      while keys != {}
        invariant g.Valid() && Partial(e, g.edges, r) && g.indegree.Keys == g.edges.Keys <= all
        invariant keys <= g.indegree.Keys
        invariant g.edges.Keys == all ==> g.edges == old(g.edges) && g.indegree == old(g.indegree) && r == done
        invariant g.edges.Keys == all ==> forall v :: v in all - keys ==> g.indegree[v] != 0
        decreases |keys|
      {
        var k :| k in keys;
        keys := keys - {k};
        if g.indegree[k] == 0 {
          PartialNext(e, g.edges, g.indegree, r, k);
          r := r + [k];
          var rc := g.DelVertex(k);
          CountedKeys(g.edges, g.indegree);
          assert k !in g.edges;
        }
      }
      Fewer(g.indegree.Keys, all);
    }

    /** A topological order of the vertices, or nothing if there is none: vertices without
        incoming edges are taken away pass by pass, until a pass takes none. */
    method Topsort() returns (r: seq<string>)
      requires Valid()
      ensures !Cyclic(edges) ==> Sorted(edges, r)
      ensures r == [] <==> Cyclic(edges) || edges == map[]
    {
      hide Counted, Sorted, Cyclic;
      r := [];
      var g := new Digraph(edges, indegree);
      SortedNone(edges);
      CountedKeys(g.edges, g.indegree);
      while g.indegree != map[]
        invariant fresh(g) && g.Valid() && Partial(edges, g.edges, r) && g.indegree.Keys == g.edges.Keys
        decreases |g.indegree.Keys|
      {
        ghost var before := g.indegree.Keys;
        var sizeBefore := |g.indegree|;
        r := Pass(edges, g, r);
        if |g.indegree| == sizeBefore {
          Stuck(edges, g.edges, g.indegree, r);
          return [];
        }
      }
      SortedAll(edges, g.edges, r);
    }
  }
}
