/** The tables in memory while joins are added, and the references of the
    catalogue with the joins' own: the guard, asked of the objects, answers for the latter. */
module JoinMirror {
  import opened Text
  import opened ReferenceGraph
  import opened Schema
  import opened Loader
  import opened VirtualEdges
  import opened JoinSteps

  /** Cached tables stand under their own names. */
  ghost predicate CacheNamed(cache: Cache) {
    forall k <- cache :: k == NameOf(cache[k]).FullName() && NameOf(cache[k]).Plain()
  }

  /** The table is cached, or the copy of a cached one. */
  ghost predicate StandsFor(cache: Cache, t: Table) {
    NameOf(t).FullName() in cache && NameOf(cache[NameOf(t).FullName()]) == NameOf(t)
  }

  /** Every reference of the object is one of the table it stands for. */
  ghost predicate Below(objects: Refs<Table>, graph: Refs<QName>, t: Table) {
    t in objects && NameOf(t) in graph && forall p <- objects[t] :: NameOf(p) in graph[NameOf(t)]
  }

  /** Every reference of the table leads from the object to a cached one. */
  ghost predicate Whole(cache: Cache, objects: Refs<Table>, graph: Refs<QName>, t: Table) {
    && t in objects && NameOf(t) in graph && (forall p <- objects[t] :: p in cache.Values)
    && forall q <- graph[NameOf(t)] :: exists p <- objects[t] :: NameOf(p) == q
  }

  /** The table references itself, or its copy. */
  ghost predicate HomeEdge(objects: Refs<Table>, t: Table) {
    t in objects && exists p <- objects[t] :: NameOf(p) == NameOf(t)
  }

  /** A table that is not in memory references what the catalogue says. */
  ghost predicate Untouched(catalog: Catalog, cache: Cache, graph: Refs<QName>) {
    forall q <- catalog | q.FullName() !in cache :: q in graph && graph[q] == Parents(catalog[q].keys)
  }

  ghost predicate AllStand(cache: Cache, objects: Refs<Table>) {
    forall t {:trigger StandsFor(cache, t)} | t in objects :: StandsFor(cache, t)
  }

  ghost predicate AllBelow(objects: Refs<Table>, graph: Refs<QName>) {
    forall t {:trigger Below(objects, graph, t)} | t in objects :: Below(objects, graph, t)
  }

  ghost predicate WholeOrHome(cache: Cache, objects: Refs<Table>, graph: Refs<QName>, t: Table) {
    Whole(cache, objects, graph, t) || HomeEdge(objects, t)
  }

  ghost predicate AllWhole(cache: Cache, objects: Refs<Table>, graph: Refs<QName>) {
    forall t {:trigger WholeOrHome(cache, objects, graph, t)} | t in cache.Values ::
      WholeOrHome(cache, objects, graph, t)
  }

  /** A table that is not cached is the copy of one that references itself. */
  ghost predicate CopiesHome(cache: Cache, objects: Refs<Table>) {
    forall t {:trigger StandsFor(cache, t)} | t in objects && t !in cache.Values ::
      StandsFor(cache, t) && HomeEdge(objects, cache[NameOf(t).FullName()])
  }

  ghost predicate Mirrored(catalog: Catalog, cache: Cache, objects: Refs<Table>, graph: Refs<QName>) {
    && CacheNamed(cache) && cache.Values <= objects.Keys && Closed(objects) && graph.Keys == catalog.Keys
    && AllStand(cache, objects) && AllBelow(objects, graph) && AllWhole(cache, objects, graph)
    && CopiesHome(cache, objects) && Untouched(catalog, cache, graph)
  }

  // The guard.

  lemma WalkOfNames(objects: Refs<Table>, graph: Refs<QName>, w: seq<Table>) returns (v: seq<QName>)
    requires AllBelow(objects, graph) && IsWalk(objects, w)
    ensures IsWalk(graph, v) && NamedLike(w, v)
  {
    v := seq(|w|, i requires 0 <= i < |w| => NameOf(w[i]));
    forall i | 0 <= i < |v|
      ensures v[i] in graph && forall p <- objects[w[i]] :: NameOf(p) in graph[v[i]]
    {
      assert Below(objects, graph, w[i]);
    }
  }

  ghost predicate NameTwice(w: seq<Table>) {
    exists i, j | 0 <= i < j < |w| :: w[i].name == w[j].name
  }

  ghost predicate NamedLike(w: seq<Table>, v: seq<QName>) {
    |w| == |v| && forall i | 0 <= i < |w| :: NameOf(w[i]) == v[i]
  }

  lemma LongerWalk(objects: Refs<Table>, u: Table, w: seq<Table>)
    requires u in objects && IsWalk(objects, w) && w != [] && w[0] in objects[u]
    ensures IsWalk(objects, [u] + w) && (NameTwice(w) ==> NameTwice([u] + w))
  {
    var more := [u] + w;
    if NameTwice(w) {
      var i, j :| 0 <= i < j < |w| && w[i].name == w[j].name;
      assert more[i + 1].name == more[j + 1].name;
    }
  }

  /** A walk along the references of the tables is one along the objects, at least
      until a name comes twice. */
  lemma {:induction false} WalkOfObjects(cache: Cache, objects: Refs<Table>, graph: Refs<QName>, u: Table,
                                         v: seq<QName>)
    returns (w: seq<Table>)
    requires AllWhole(cache, objects, graph) && Closed(objects) && u in cache.Values
    requires IsWalk(graph, v) && v != [] && v[0] == NameOf(u)
    ensures IsWalk(objects, w) && w != [] && w[0] == u && (NameTwice(w) || NamedLike(w, v))
    decreases |v|
  {
    assert WholeOrHome(cache, objects, graph, u);
    if HomeEdge(objects, u) {
      w := WalkHome(objects, u);
    } else if |v| == 1 {
      w := [u];
    } else {
      var p :| p in objects[u] && NameOf(p) == v[1];
      TailIsWalk(graph, v);
      var rest := WalkOfObjects(cache, objects, graph, p, v[1..]);
      w := [u] + rest;
      LongerWalk(objects, u, rest);
    }
  }

  lemma TailIsWalk(graph: Refs<QName>, v: seq<QName>)
    requires IsWalk(graph, v) && |v| > 1
    ensures IsWalk(graph, v[1..]) && v[1] in graph[v[0]]
  {
  }

  lemma WalkHome(objects: Refs<Table>, u: Table) returns (w: seq<Table>)
    requires Closed(objects) && HomeEdge(objects, u)
    ensures IsWalk(objects, w) && w != [] && w[0] == u && NameTwice(w)
  {
    var p :| p in objects[u] && NameOf(p) == NameOf(u);
    w := [u, p];
    assert w[0].name == w[1].name;
  }

  lemma LoopIffNameTwice(objects: Refs<Table>, u: Table)
    requires Closed(objects) && u in objects
    ensures LoopsFrom<Table>(TableNames(objects.Keys), objects, u)
       <==> exists w: seq<Table> :: IsWalk(objects, w) && w != [] && w[0] == u && NameTwice(w)
  {
    var names := TableNames(objects.Keys);
    LoopingIffNameRepeats<Table>(names, objects, u);
    if w: seq<Table> :| RepeatingWalk<Table>(names, objects, [], u, w) {
      var j: nat :| j < |w| && RepeatsAt<Table>(names, [], w, j);
      var i: nat :| i < j && names[w[i]] == names[w[j]];
      assert w[i].name == w[j].name;
    }
    if w: seq<Table> :| IsWalk(objects, w) && w != [] && w[0] == u && NameTwice(w) {
      var i, j :| 0 <= i < j < |w| && w[i].name == w[j].name;
      assert names[w[i]] == names[w[j]];
      assert RepeatsAt<Table>(names, [], w, j);
      assert RepeatingWalk<Table>(names, objects, [], u, w);
    }
  }

  ghost predicate TableTwice(v: seq<QName>) {
    exists i, j | 0 <= i < j < |v| :: v[i].table == v[j].table
  }

  lemma RepeatsIffTableTwice(graph: Refs<QName>, q: QName)
    ensures RepeatsFrom(graph, q)
       <==> exists v: seq<QName> :: IsWalk(graph, v) && v != [] && v[0] == q && TableTwice(v)
  {
    var names := TableOf(graph);
    if v: seq<QName> :| RepeatingWalk<QName>(names, graph, [], q, v) {
      var j: nat :| j < |v| && RepeatsAt<QName>(names, [], v, j);
      var i: nat :| i < j && names[v[i]] == names[v[j]];
      assert v[i].table == v[j].table;
    }
    if v: seq<QName> :| IsWalk(graph, v) && v != [] && v[0] == q && TableTwice(v) {
      var i, j :| 0 <= i < j < |v| && v[i].table == v[j].table;
      assert names[v[i]] == names[v[j]];
      assert RepeatsAt<QName>(names, [], v, j);
      assert RepeatingWalk<QName>(names, graph, [], q, v);
    }
  }

  lemma TwiceAlike(w: seq<Table>, v: seq<QName>)
    requires NamedLike(w, v)
    ensures NameTwice(w) <==> TableTwice(v)
  {
    if i, j :| 0 <= i < j < |w| && w[i].name == w[j].name {
      assert v[i].table == v[j].table;
    }
    if i, j :| 0 <= i < j < |v| && v[i].table == v[j].table {
      assert w[i].name == w[j].name;
    }
  }

  /** The guard, asked of the objects from a cached table on, answers whether the
      tables' references lead into a loop of names. */
  lemma GuardAnswersForTables(catalog: Catalog, cache: Cache, objects: Refs<Table>, graph: Refs<QName>, u: Table)
    requires Mirrored(catalog, cache, objects, graph) && u in cache.Values
    ensures LoopsFrom<Table>(TableNames(objects.Keys), objects, u) <==> RepeatsFrom(graph, NameOf(u))
  {
    LoopIffNameTwice(objects, u);
    RepeatsIffTableTwice(graph, NameOf(u));
    if w: seq<Table> :| IsWalk(objects, w) && w != [] && w[0] == u && NameTwice(w) {
      var v := WalkOfNames(objects, graph, w);
      TwiceAlike(w, v);
    }
    if v: seq<QName> :| IsWalk(graph, v) && v != [] && v[0] == NameOf(u) && TableTwice(v) {
      var w := WalkOfObjects(cache, objects, graph, u, v);
      if !NameTwice(w) {
        TwiceAlike(w, v);
      }
    }
  }

  // What changes.

  /** The object's references are the keys' parents, as cached. */
  ghost predicate MirrorsKeys(targets: seq<Table>, keys: seq<ForeignKey>, cache: Cache) {
    |targets| == |keys| && forall i | 0 <= i < |keys| ::
      targets[i] in cache.Values && NameOf(targets[i]) == keys[i].parent
  }

  /** Tables were loaded, completely, with everything they reference. */
  ghost predicate GrownFrom(catalog: Catalog, before: Cache, objects: Refs<Table>, after: Cache, grown: Refs<Table>) {
    && Extends(before, after) && CacheNamed(after) && Grows<Table>(objects, grown) && Closed(grown)
    && grown.Keys == objects.Keys + Newly(before, after)
    && forall t <- Newly(before, after) :: NameOf(t) in catalog && MirrorsKeys(grown[t], catalog[NameOf(t)].keys, after)
  }

  lemma NewTableWhole(catalog: Catalog, before: Cache, graph: Refs<QName>, after: Cache, grown: Refs<Table>, t: Table)
    requires Untouched(catalog, before, graph) && CacheNamed(after) && t in Newly(before, after) && t in grown
    requires NameOf(t) in catalog && MirrorsKeys(grown[t], catalog[NameOf(t)].keys, after)
    ensures Whole(after, grown, graph, t) && Below(grown, graph, t) && StandsFor(after, t)
  {
    var k :| k in after && k !in before && after[k] == t;
    var keys := catalog[NameOf(t)].keys;
    assert graph[NameOf(t)] == Parents(keys);
    forall q <- graph[NameOf(t)]
      ensures exists p <- grown[t] :: NameOf(p) == q
    {
      var i :| 0 <= i < |keys| && keys[i].parent == q;
      assert grown[t][i] in grown[t];
    }
    forall p <- grown[t]
      ensures NameOf(p) in graph[NameOf(t)] && p in after.Values
    {
      var i :| 0 <= i < |grown[t]| && grown[t][i] == p;
      assert Parents(keys)[i] == NameOf(p);
    }
  }

  lemma MirrorGrows(catalog: Catalog, before: Cache, objects: Refs<Table>, graph: Refs<QName>, after: Cache,
                    grown: Refs<Table>)
    requires Mirrored(catalog, before, objects, graph) && GrownFrom(catalog, before, objects, after, grown)
    ensures Mirrored(catalog, after, grown, graph)
  {
    ValuesInTwoSteps(before, after);
    forall t <- grown
      ensures StandsFor(after, t) && Below(grown, graph, t)
      ensures t in after.Values ==> WholeOrHome(after, grown, graph, t)
      ensures t !in after.Values ==> HomeEdge(grown, after[NameOf(t).FullName()])
    {
      if t in objects {
        OldTableKept(before, objects, graph, after, grown, t);
      } else {
        NewTableWhole(catalog, before, graph, after, grown, t);
      }
    }
  }

  lemma OldTableKept(before: Cache, objects: Refs<Table>, graph: Refs<QName>, after: Cache, grown: Refs<Table>,
                     t: Table)
    requires AllStand(before, objects) && AllBelow(objects, graph) && AllWhole(before, objects, graph)
    requires CopiesHome(before, objects) && before.Values <= after.Values
    requires Extends(before, after) && CacheNamed(after) && Grows<Table>(objects, grown) && t in objects
    ensures StandsFor(after, t) && Below(grown, graph, t)
    ensures t in after.Values ==> WholeOrHome(after, grown, graph, t)
    ensures t !in after.Values ==> HomeEdge(grown, after[NameOf(t).FullName()])
  {
    assert StandsFor(before, t) && Below(objects, graph, t);
    CachedOrNot(before, after, t);
    if t in before.Values {
      assert WholeOrHome(before, objects, graph, t);
    }
  }

  /** A copy does not get into the cache later. */
  lemma CachedOrNot(before: Cache, after: Cache, t: Table)
    requires Extends(before, after) && CacheNamed(after) && StandsFor(before, t)
    ensures t in after.Values ==> t in before.Values
  {
    if k :| k in after && after[k] == t {
      assert after[NameOf(t).FullName()] == before[NameOf(t).FullName()] == t;
    }
  }

  /** One key more, from any object to a cached one. */
  lemma MirrorWithEdge(catalog: Catalog, cache: Cache, objects: Refs<Table>, graph: Refs<QName>, child: Table,
                       parent: Table)
    requires Mirrored(catalog, cache, objects, graph) && child in objects && parent in cache.Values
    ensures NameOf(child) in graph
    ensures
      Mirrored(catalog, cache, AddEdge<Table>(objects, child, parent),
               AddEdge<QName>(graph, NameOf(child), NameOf(parent)))
  {
    assert Below(objects, graph, child) && StandsFor(cache, child);
    EdgeStaysClosed(cache, objects, child, parent);
    EdgeStaysBelow(objects, graph, child, parent);
    CopiesStayHome(cache, objects, child, parent);
    AllStayWhole(cache, objects, graph, child, parent);
    EdgeFromCached(catalog, cache, graph, NameOf(child), NameOf(parent));
  }

  lemma EdgeStaysClosed(cache: Cache, objects: Refs<Table>, child: Table, parent: Table)
    requires Closed(objects) && AllStand(cache, objects) && child in objects && parent in objects
    ensures Closed(AddEdge<Table>(objects, child, parent)) && AllStand(cache, AddEdge<Table>(objects, child, parent))
  {
  }

  lemma CopiesStayHome(cache: Cache, objects: Refs<Table>, child: Table, parent: Table)
    requires CopiesHome(cache, objects) && child in objects
    ensures CopiesHome(cache, AddEdge<Table>(objects, child, parent))
  {
    forall t <- objects | t !in cache.Values
      ensures StandsFor(cache, t)
      ensures HomeEdge(AddEdge<Table>(objects, child, parent), cache[NameOf(t).FullName()])
    {
      assert StandsFor(cache, t);
      HomeEdgeKept(objects, child, parent, cache[NameOf(t).FullName()]);
    }
  }

  lemma AllStayWhole(cache: Cache, objects: Refs<Table>, graph: Refs<QName>, child: Table, parent: Table)
    requires CacheNamed(cache) && CopiesHome(cache, objects) && AllWhole(cache, objects, graph)
    requires child in objects && NameOf(child) in graph && parent in cache.Values
    ensures
      AllWhole(cache, AddEdge<Table>(objects, child, parent), AddEdge<QName>(graph, NameOf(child), NameOf(parent)))
  {
    var more, names := AddEdge<Table>(objects, child, parent), AddEdge<QName>(graph, NameOf(child), NameOf(parent));
    forall t <- cache.Values
      ensures WholeOrHome(cache, more, names, t)
    {
      assert WholeOrHome(cache, objects, graph, t);
      if HomeEdge(objects, t) {
        HomeEdgeKept(objects, child, parent, t);
      } else {
        OnlyChildCached(cache, objects, child, t);
        EdgeKeepsWhole(cache, objects, graph, child, parent, t);
      }
    }
  }

  lemma EdgeFromCached(catalog: Catalog, cache: Cache, graph: Refs<QName>, child: QName, parent: QName)
    requires Untouched(catalog, cache, graph) && child in graph && child.FullName() in cache
    ensures Untouched(catalog, cache, AddEdge<QName>(graph, child, parent))
  {
  }

  lemma EdgeStaysBelow(objects: Refs<Table>, graph: Refs<QName>, child: Table, parent: Table)
    requires AllBelow(objects, graph) && child in objects && NameOf(child) in graph
    ensures AllBelow(AddEdge<Table>(objects, child, parent), AddEdge<QName>(graph, NameOf(child), NameOf(parent)))
  {
    var more, names := AddEdge<Table>(objects, child, parent), AddEdge<QName>(graph, NameOf(child), NameOf(parent));
    forall t <- objects
      ensures Below(more, names, t)
    {
      assert Below(objects, graph, t);
    }
  }

  lemma HomeEdgeKept(objects: Refs<Table>, child: Table, parent: Table, t: Table)
    requires child in objects && HomeEdge(objects, t)
    ensures HomeEdge(AddEdge<Table>(objects, child, parent), t)
  {
    var p :| p in objects[t] && NameOf(p) == NameOf(t);
    assert p in AddEdge<Table>(objects, child, parent)[t];
  }

  /** A cached table that does not reference itself has no copy. */
  lemma OnlyChildCached(cache: Cache, objects: Refs<Table>, child: Table, t: Table)
    requires CacheNamed(cache) && CopiesHome(cache, objects) && child in objects
    requires t in cache.Values && !HomeEdge(objects, t)
    ensures NameOf(t) == NameOf(child) ==> t == child
  {
    var k :| k in cache && cache[k] == t;
    if child !in cache.Values {
      assert StandsFor(cache, child);
    } else if NameOf(t) == NameOf(child) {
      var l :| l in cache && cache[l] == child;
      assert k == l;
    }
  }

  lemma EdgeKeepsWhole(cache: Cache, objects: Refs<Table>, graph: Refs<QName>, child: Table, parent: Table, t: Table)
    requires child in objects && NameOf(child) in graph && parent in cache.Values && Whole(cache, objects, graph, t)
    requires NameOf(t) == NameOf(child) ==> t == child
    ensures
      Whole(cache, AddEdge<Table>(objects, child, parent), AddEdge<QName>(graph, NameOf(child), NameOf(parent)), t)
  {
    var more, names := AddEdge<Table>(objects, child, parent), AddEdge<QName>(graph, NameOf(child), NameOf(parent));
    forall q <- names[NameOf(t)]
      ensures exists p <- more[t] :: NameOf(p) == q
    {
      if q in graph[NameOf(t)] {
        var p :| p in objects[t] && NameOf(p) == q;
        assert p in more[t];
      } else {
        assert parent in more[t];
      }
    }
  }
}
