/** When a run of tables with distinct names can be ordered at all: exactly when
    the references between them form no cycle. */
module RunGraph {
  import opened Sequences
  import opened ReferenceGraph
  import opened RunOrder

  function TagsOf<N>(targets: seq<N>, tags: map<N, string>): set<string>
    requires forall m <- targets :: m in tags
  {
    set m <- targets :: tags[m]
  }

  /** Each item waits for the items it references. */
  ghost predicate NodesOf<N>(graph: Refs<N>, tags: map<N, string>, items: seq<N>, nodes: seq<Node>) {
    && Closed(graph) && tags.Keys == graph.Keys && UniqueNames(tags)
    && |nodes| == |items| && (forall n <- graph :: n in items)
    && forall i | 0 <= i < |items| ::
         && items[i] in graph
         && (forall m <- graph[items[i]] :: m in tags)
         && nodes[i] == Node(tags[items[i]], TagsOf(graph[items[i]], tags))
  }

  // An order means no cycle.

  /** Where a name first occurs; the length if it does not. */
  function First(o: seq<Node>, name: string): (k: nat)
    ensures k <= |o| && (k < |o| ==> o[k].name == name) && forall j | 0 <= j < k :: o[j].name != name
  {
    if o == [] then 0 else if o[0].name == name then 0 else 1 + First(o[1..], name)
  }

  lemma OrderHoldsItems<N>(graph: Refs<N>, tags: map<N, string>, items: seq<N>, nodes: seq<Node>, o: seq<Node>, n: N)
    requires NodesOf(graph, tags, items, nodes) && multiset(o) == multiset(nodes) && n in graph
    ensures
      var k := First(o, tags[n]);
      k < |o| && o[k].needs == TagsOf(graph[n], tags)
  {
    var i :| 0 <= i < |items| && items[i] == n;
    assert nodes[i] in multiset(o);
    var j :| 0 <= j < |o| && o[j] == nodes[i];
    var k := First(o, tags[n]);
    assert k <= j;
    assert o[k] in multiset(nodes);
    var m :| 0 <= m < |nodes| && nodes[m] == o[k];
    assert tags[items[m]] == tags[n];
  }

  lemma ParentOccursBefore<N>(graph: Refs<N>, tags: map<N, string>, items: seq<N>, nodes: seq<Node>, o: seq<Node>, n: N,
                              p: N)
    requires NodesOf(graph, tags, items, nodes) && multiset(o) == multiset(nodes) && DepsFirst(o)
    requires n in graph && p in graph[n]
    ensures p in graph && First(o, tags[p]) < First(o, tags[n])
  {
    OrderHoldsItems(graph, tags, items, nodes, o, n);
    var k := First(o, tags[n]);
    var i :| 0 <= i < |graph[n]| && graph[n][i] == p;
    assert Ready(o[..k], o[k]) && tags[p] in o[k].needs;
    var b :| b in o[..k] && b.name == tags[p];
    var j :| 0 <= j < k && o[..k][j] == b;
  }

  lemma {:induction false} WalkOccursBackwards<N>(graph: Refs<N>, tags: map<N, string>, items: seq<N>, nodes: seq<Node>,
                                                  o: seq<Node>, w: seq<N>)
    requires NodesOf(graph, tags, items, nodes) && multiset(o) == multiset(nodes) && DepsFirst(o)
    requires IsWalk(graph, w) && w != []
    ensures First(o, tags[w[|w| - 1]]) <= First(o, tags[w[0]])
    decreases |w|
  {
    if |w| > 1 {
      ParentOccursBefore(graph, tags, items, nodes, o, w[0], w[1]);
      WalkOccursBackwards(graph, tags, items, nodes, o, w[1..]);
    }
  }

  lemma OrderMeansAcyclic<N>(graph: Refs<N>, tags: map<N, string>, items: seq<N>, nodes: seq<Node>)
    requires NodesOf(graph, tags, items, nodes) && CanBeOrdered(nodes)
    ensures Acyclic(graph)
  {
    var o: seq<Node> :| multiset(o) == multiset(nodes) && DepsFirst(o);
    forall a <- graph, b <- graph | b in graph[a]
      ensures !Reaches(graph, b, a)
    {
      if Reaches(graph, b, a) {
        var w: seq<N> :| Connects(graph, b, a, w);
        WalkOccursBackwards(graph, tags, items, nodes, o, w);
        ParentOccursBefore(graph, tags, items, nodes, o, a, b);
      }
    }
  }

  // No order means a cycle.

  /** Placing ready nodes until none is left or none is ready. */
  lemma {:induction false} PlaceReady(nodes: seq<Node>, placed: seq<Node>, left: seq<Node>)
    returns (done: seq<Node>, stuck: seq<Node>)
    requires multiset(placed) + multiset(left) == multiset(nodes) && DepsFirst(placed)
    ensures multiset(done) + multiset(stuck) == multiset(nodes) && DepsFirst(done)
    ensures forall n <- stuck :: !Ready(done, n)
    ensures stuck == [] ==> CanBeOrdered(nodes)
    decreases |left|
  {
    if i :| 0 <= i < |left| && Ready(placed, left[i]) {
      PlaceOne(placed, left[i]);
      WithoutMultiset(left, i);
      done, stuck := PlaceReady(nodes, placed + [left[i]], Without(left, i));
    } else {
      done, stuck := placed, left;
      assert left == [] ==> multiset(placed) == multiset(nodes);
    }
  }

  lemma PlaceOne(placed: seq<Node>, n: Node)
    requires DepsFirst(placed) && Ready(placed, n)
    ensures DepsFirst(placed + [n])
  {
    var more := placed + [n];
    forall k | 0 <= k < |more|
      ensures Ready(more[..k], more[k])
    {
      if k < |placed| {
        assert more[..k] == placed[..k];
      } else {
        assert more[..k] == placed;
      }
    }
  }

  /** An item that is not placed waits for an item that is not placed. */
  lemma UnplacedReference<N>(graph: Refs<N>, tags: map<N, string>, items: seq<N>, nodes: seq<Node>,
                             done: seq<Node>, stuck: seq<Node>, n: N) returns (i: nat)
    requires NodesOf(graph, tags, items, nodes) && multiset(done) + multiset(stuck) == multiset(nodes)
    requires forall x <- stuck :: !Ready(done, x)
    requires n in graph && tags[n] !in NamesOf(done)
    ensures i < |graph[n]| && graph[n][i] in graph && tags[graph[n][i]] !in NamesOf(done)
  {
    var j :| 0 <= j < |items| && items[j] == n;
    assert nodes[j] in multiset(done) + multiset(stuck);
    assert nodes[j] !in done;
    assert nodes[j] in stuck && !Ready(done, nodes[j]);
    var name :| name in nodes[j].needs && name !in NamesOf(done);
    var p :| p in graph[n] && tags[p] == name;
    i :| 0 <= i < |graph[n]| && graph[n][i] == p;
  }

  lemma NoOrderMeansCycle<N>(graph: Refs<N>, tags: map<N, string>, items: seq<N>, nodes: seq<Node>)
    requires NodesOf(graph, tags, items, nodes) && !CanBeOrdered(nodes)
    ensures !Acyclic(graph)
  {
    assert multiset([]) + multiset(nodes) == multiset(nodes);
    var done, stuck := PlaceReady(nodes, [], nodes);
    assert stuck[0] in multiset(nodes);
    var j :| 0 <= j < |nodes| && nodes[j] == stuck[0];
    assert stuck[0] in stuck && !Ready(done, nodes[j]);
    var name :| name in nodes[j].needs && name !in NamesOf(done);
    var p :| p in graph[items[j]] && tags[p] == name;
    UnplacedLeadToCycle(graph, tags, items, nodes, done, stuck, p);
  }

  lemma UnplacedLeadToCycle<N>(graph: Refs<N>, tags: map<N, string>, items: seq<N>, nodes: seq<Node>,
                               done: seq<Node>, stuck: seq<Node>, p: N)
    requires NodesOf(graph, tags, items, nodes) && multiset(done) + multiset(stuck) == multiset(nodes)
    requires forall x <- stuck :: !Ready(done, x)
    requires p in graph && tags[p] !in NamesOf(done)
    ensures !Acyclic(graph)
  {
    var s := set n | n in graph && tags[n] !in NamesOf(done);
    forall n | n in s
      ensures ReferencesInto(graph, s, n)
    {
      var i := UnplacedReference(graph, tags, items, nodes, done, stuck, n);
      assert graph[n][i] in s;
    }
    assert Endless(graph, s);
    EndlessSetLoops(tags, graph, s, [], p);
    AcyclicIffNoneLooping(tags, graph);
  }

  /** So the nodes of a run can be ordered exactly when the references between its
      tables, those of a table to itself included, form no cycle. */
  lemma OrderIffAcyclic<N>(graph: Refs<N>, tags: map<N, string>, items: seq<N>, nodes: seq<Node>)
    requires NodesOf(graph, tags, items, nodes)
    ensures CanBeOrdered(nodes) <==> Acyclic(graph)
  {
    if CanBeOrdered(nodes) {
      OrderMeansAcyclic(graph, tags, items, nodes);
    } else {
      NoOrderMeansCycle(graph, tags, items, nodes);
    }
  }
}
