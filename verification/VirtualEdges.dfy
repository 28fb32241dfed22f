/** What virtual foreign keys do to the graph of references, and what their
    loop guard can tell (db/constraint.go AddVirtualFKs). */
module VirtualEdges {
  import opened ReferenceGraph

  // Graphs that grow.

  ghost predicate Grows<N>(before: Refs<N>, after: Refs<N>) {
    forall n <- before :: n in after && after[n] == before[n]
  }

  /** Every edge of the one graph is in the other. */
  ghost predicate Keeps<N>(before: Refs<N>, after: Refs<N>) {
    forall n <- before :: n in after && forall m <- before[n] :: m in after[n]
  }

  lemma ReachesKept<N>(before: Refs<N>, after: Refs<N>, a: N, b: N)
    requires Keeps(before, after) && Reaches(before, a, b)
    ensures Reaches(after, a, b)
  {
    var w: seq<N> :| Connects(before, a, b, w);
    forall i | 0 < i < |w|
      ensures w[i] in after[w[i - 1]]
    {
      assert w[i] in before[w[i - 1]];
    }
    assert Connects(after, a, b, w);
  }

  lemma AcyclicBefore<N>(before: Refs<N>, after: Refs<N>)
    requires Keeps(before, after) && Acyclic(after)
    ensures Acyclic(before)
  {
    forall a <- before, b <- before | b in before[a]
      ensures !Reaches(before, b, a)
    {
      if Reaches(before, b, a) {
        ReachesKept(before, after, b, a);
      }
    }
  }

  // The guard.

  /** Asked before the edge exists, as the program does, the guard sees only the
      loops that were there already: on an acyclic graph it never fires. */
  lemma GuardAsWrittenNeverFires<N>(names: map<N, string>, refs: Refs<N>, parent: N)
    requires Closed(refs) && names.Keys == refs.Keys && UniqueNames(names)
    requires Acyclic(refs) && parent in refs
    ensures !LoopsFrom(names, refs, parent)
  {
    AcyclicIffNoneLooping(names, refs);
  }

  /** Asked after the edge is attached, it decides exactly whether the edge closes a cycle. */
  lemma GuardOnAttachedEdgeDecides<N>(names: map<N, string>, refs: Refs<N>, child: N, parent: N)
    requires Closed(refs) && names.Keys == refs.Keys && UniqueNames(names)
    requires Acyclic(refs) && child in refs && parent in refs
    ensures LoopsFrom(names, AddEdge(refs, child, parent), parent) <==> Reaches(refs, parent, child)
  {
    var more := AddEdge(refs, child, parent);
    AddEdgeAcyclic(refs, child, parent);
    AcyclicIffNoneLooping(names, more);
    if Reaches(refs, parent, child) {
      ReachesSurvivesAdding(refs, child, parent, parent, child);
      assert parent in more[child];
      assert CycleReachable(more, parent);
      LoopingIffCycleReachable(names, more, parent);
    }
  }

  datatype Edge<N> = Edge(child: N, parent: N)

  /** Joins taken one after the other, keeping an edge only if the guard, asked
      after attaching it, stays silent. */
  ghost function AddGuarded<N>(names: map<N, string>, refs: Refs<N>, joins: seq<Edge<N>>): (more: Refs<N>)
    requires Closed(refs) && names.Keys == refs.Keys
    requires forall j <- joins :: j.child in refs && j.parent in refs
    ensures Closed(more) && more.Keys == refs.Keys
    decreases |joins|
  {
    if joins == [] then refs
    else
      var more := AddEdge(refs, joins[0].child, joins[0].parent);
      AddGuarded(names, if LoopsFrom(names, more, joins[0].parent) then refs else more, joins[1..])
  }

  /** The documented intent: no list of virtual keys ever creates a loop. */
  lemma {:induction false} GuardedKeysNeverLoop<N>(names: map<N, string>, refs: Refs<N>, joins: seq<Edge<N>>)
    requires Closed(refs) && names.Keys == refs.Keys && UniqueNames(names) && Acyclic(refs)
    requires forall j <- joins :: j.child in refs && j.parent in refs
    ensures Acyclic(AddGuarded(names, refs, joins))
    ensures forall n <- refs :: !LoopsFrom(names, AddGuarded(names, refs, joins), n)
    decreases |joins|
  {
    if joins != [] {
      var e := joins[0];
      var more := AddEdge(refs, e.child, e.parent);
      GuardOnAttachedEdgeDecides(names, refs, e.child, e.parent);
      AddEdgeAcyclic(refs, e.child, e.parent);
      GuardedKeysNeverLoop(names, if LoopsFrom(names, more, e.parent) then refs else more, joins[1..]);
    } else {
      AcyclicIffNoneLooping(names, refs);
    }
  }

  /** Two tables, the second referencing the first, and a join that makes the
      first the child of the second: the guard as written is silent, the edge is
      attached, and the tables reference each other. */
  lemma GuardAsWrittenLetsALoopIn()
    ensures
      var refs: Refs<string> := map["customers" := [], "orders" := ["customers"]];
      var names := map["customers" := "customers", "orders" := "orders"];
      && Closed(refs) && Acyclic(refs)
      && !LoopsFrom(names, refs, "orders")
      && !Acyclic(AddEdge(refs, "customers", "orders"))
  {
    var refs: Refs<string> := map["customers" := [], "orders" := ["customers"]];
    var names := map["customers" := "customers", "orders" := "orders"];
    forall path: seq<string>
      ensures "customers" !in path ==> !Looping(names, refs, path, "customers")
    {
    }
    AcyclicIffNoneLooping(names, refs);
    GuardAsWrittenNeverFires(names, refs, "orders");
    assert Connects(refs, "orders", "customers", ["orders", "customers"]);
    AddEdgeAcyclic(refs, "customers", "orders");
  }
}
