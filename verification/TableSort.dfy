/** SortTables of db/utils.go on table objects. */
module TableSort {
  import opened Text
  import opened Sequences
  import opened Schema
  import opened RunOrder

  /** A pass over the waiting tables that places none leaves the loop where it
      was, so the program repeats that pass forever: `NeverEnds`. */
  datatype SortOutcome = Sorted(order: seq<Table>) | NeverEnds(placed: seq<Table>)

  ghost function NodeOf(t: Table): Node
    reads t, t.constraints
  {
    Node(Lower(t.name), set c | c in t.constraints && c.willBeInsertedDuringThisRun :: Lower(c.referencedTableName))
  }

  ghost function Nodes(ts: seq<Table>): (nodes: seq<Node>)
    reads Elements(ts), ConstraintsOf(Elements(ts))
    ensures |nodes| == |ts| && forall i | 0 <= i < |ts| :: nodes[i] == (Covered(Elements(ts), ts[i]); NodeOf(ts[i]))
  {
    if ts == [] then []
    else
      assert forall t <- Elements(ts[1..]) :: t in Elements(ts);
      Covered(Elements(ts), ts[0]);
      [NodeOf(ts[0])] + Nodes(ts[1..])
  }

  lemma NodesPrefix(ts: seq<Table>, k: nat)
    requires k <= |ts|
    ensures Nodes(ts[..k]) == Nodes(ts)[..k]
  {
    forall i | 0 <= i < k
      ensures Nodes(ts[..k])[i] == Nodes(ts)[i]
    {
      assert ts[..k][i] == ts[i];
    }
  }

  /** The program's readiness test is the one of RunOrder. */
  lemma ContainedIffReady(t: Table, placed: seq<Table>)
    ensures t.AreAllDependenciesContained(placed) <==> Ready(Nodes(placed), NodeOf(t))
  {
    var names := RunOrder.NamesOf(Nodes(placed));
    forall name: string
      ensures Lower(name) in names <==> ListsName(placed, name)
    {
      if i :| 0 <= i < |placed| && SameName(placed[i].name, name) {
        assert Nodes(placed)[i] in Nodes(placed);
      }
    }
    if Ready(Nodes(placed), NodeOf(t)) {
      forall i | 0 <= i < |t.constraints| && t.constraints[i].willBeInsertedDuringThisRun
        ensures ListsName(placed, t.constraints[i].referencedTableName)
      {
        assert Lower(t.constraints[i].referencedTableName) in NodeOf(t).needs;
      }
    }
  }

  ghost predicate ByConstraintCount(ts: seq<Table>)
    reads ts
  {
    forall i, j | 0 <= i < j < |ts| :: |ts[i].constraints| <= |ts[j].constraints|
  }

  function InsertByCount(t: Table, ts: seq<Table>): seq<Table>
    reads t, ts
  {
    if ts == [] || |t.constraints| <= |ts[0].constraints| then [t] + ts
    else [ts[0]] + InsertByCount(t, ts[1..])
  }

  lemma {:induction false} InsertByCountPermutes(t: Table, ts: seq<Table>)
    ensures multiset(InsertByCount(t, ts)) == multiset(ts) + multiset{t}
  {
    if ts != [] {
      InsertByCountPermutes(t, ts[1..]);
      assert ts == [ts[0]] + ts[1..];
    }
  }

  lemma ConsSorted(h: Table, ts: seq<Table>)
    requires ByConstraintCount(ts) && forall t <- ts :: |h.constraints| <= |t.constraints|
    ensures ByConstraintCount([h] + ts)
  {
  }

  lemma {:induction false} InsertByCountSorts(t: Table, ts: seq<Table>)
    requires ByConstraintCount(ts)
    ensures ByConstraintCount(InsertByCount(t, ts))
  {
    if ts == [] || |t.constraints| <= |ts[0].constraints| {
      ConsSorted(t, ts);
    } else {
      var rest := InsertByCount(t, ts[1..]);
      InsertByCountSorts(t, ts[1..]);
      InsertByCountPermutes(t, ts[1..]);
      forall x <- rest
        ensures |ts[0].constraints| <= |x.constraints|
      {
        assert x in multiset(ts[1..]) + multiset{t};
      }
      ConsSorted(ts[0], rest);
    }
  }

  /** Stands for Go's slices.SortFunc, of which only this contract is used. */
  method SortByConstraintCount(tables: array<Table>)
    modifies tables
    ensures multiset(tables[..]) == old(multiset(tables[..]))
    ensures ByConstraintCount(tables[..])
  {
    var given, sorted: seq<Table> := tables[..], [];
    for i := 0 to |given|
      modifies {}
      invariant ByConstraintCount(sorted) && multiset(sorted) == multiset(given[..i])
    {
      InsertByCountSorts(given[i], sorted);
      InsertByCountPermutes(given[i], sorted);
      sorted := InsertByCount(given[i], sorted);
      assert given[..i + 1] == given[..i] + [given[i]];
    }
    assert given[..|given|] == given;
    assert |sorted| == |multiset(sorted)| == |multiset(given)| == |given|;
    forall i | 0 <= i < tables.Length {
      tables[i] := sorted[i];
    }
    assert tables[..] == sorted;
    assert ByConstraintCount(sorted);
  }

  method SortTables(tables: array<Table>) returns (outcome: SortOutcome, ghost order: seq<nat>)
    modifies tables
    ensures multiset(tables[..]) == old(multiset(tables[..])) && ByConstraintCount(tables[..])
    // it ends exactly when the tables can be ordered at all
    ensures outcome.Sorted? <==> CanBeOrdered(Nodes(tables[..]))
    ensures outcome.NeverEnds? ==> Stuck(tables[..], outcome.placed)
    ensures outcome.Sorted? ==>
      && multiset(outcome.order) == old(multiset(tables[..]))
      && DepsFirst(Nodes(outcome.order))
      && Greedy(Nodes(tables[..]), order)
      && PicksTables(tables[..], order, outcome.order)
  {
    SortByConstraintCount(tables);
    outcome, order := PlaceTables(tables[..]);
  }

  ghost predicate PicksTables(tables: seq<Table>, order: seq<nat>, picked: seq<Table>) {
    |picked| == |order| && forall k | 0 <= k < |order| :: order[k] < |tables| && picked[k] == tables[order[k]]
  }

  lemma PickedNodes(tables: seq<Table>, order: seq<nat>, picked: seq<Table>)
    requires PicksTables(tables, order, picked)
    ensures Nodes(picked) == Pick(Nodes(tables), order)
  {
  }

  lemma PicksOneMore(tables: seq<Table>, order: seq<nat>, picked: seq<Table>, i: nat)
    requires PicksTables(tables, order, picked) && i < |tables|
    ensures PicksTables(tables, order + [i], picked + [tables[i]])
  {
  }

  /** Some table waits, and every table not placed does. */
  ghost predicate Stuck(tables: seq<Table>, placed: seq<Table>)
    reads Elements(tables), ConstraintsOf(Elements(tables))
  {
    && (exists i | 0 <= i < |tables| ::
          (Covered(Elements(tables), tables[i]); !tables[i].AreAllDependenciesContained(placed)))
    && (forall i | 0 <= i < |tables| && tables[i] !in placed ::
          (Covered(Elements(tables), tables[i]); !tables[i].AreAllDependenciesContained(placed)))
  }

  lemma PlacedByPosition(tables: seq<Table>, order: seq<nat>, placed: seq<Table>)
    requires PicksTables(tables, order, placed)
    ensures forall i <- order :: i < |tables| && tables[i] in placed
  {
    forall i <- order
      ensures i < |tables| && tables[i] in placed
    {
      var k :| 0 <= k < |order| && order[k] == i;
      assert placed[k] == tables[i];
    }
  }

  lemma NothingReadyIsStuck(tables: seq<Table>, order: seq<nat>, indexes: seq<nat>, placed: seq<Table>)
    requires PicksTables(tables, order, placed) && Waiting(|tables|, order, indexes) && indexes != []
    requires forall k | 0 <= k < |indexes| :: !Ready(Pick(Nodes(tables), order), Nodes(tables)[indexes[k]])
    ensures Stuck(tables, placed)
  {
    PickedNodes(tables, order, placed);
    AllContainedIffReady(tables, placed);
    PlacedByPosition(tables, order, placed);
    assert !tables[indexes[0]].AreAllDependenciesContained(placed);
    forall i | 0 <= i < |tables| && tables[i] !in placed
      ensures !tables[i].AreAllDependenciesContained(placed)
    {
      assert i in indexes;
      var k :| 0 <= k < |indexes| && indexes[k] == i;
    }
  }

  lemma PlacedAll(tables: seq<Table>, order: seq<nat>, picked: seq<Table>)
    requires PicksTables(tables, order, picked) && Greedy(Nodes(tables), order) && Waiting(|tables|, order, [])
    ensures multiset(picked) == multiset(tables) && DepsFirst(Nodes(picked)) && CanBeOrdered(Nodes(tables))
  {
    PickedNodes(tables, order, picked);
    CompleteGreedyIsOrder(Nodes(tables), order);
    CompleteIsPermutation(tables, order, picked);
  }

  lemma AllContainedIffReady(tables: seq<Table>, placed: seq<Table>)
    ensures forall i | 0 <= i < |tables| ::
      tables[i].AreAllDependenciesContained(placed) <==> Ready(Nodes(placed), Nodes(tables)[i])
  {
    forall i | 0 <= i < |tables|
      ensures tables[i].AreAllDependenciesContained(placed) <==> Ready(Nodes(placed), Nodes(tables)[i])
    {
      ContainedIffReady(tables[i], placed);
    }
  }

  /** One pass of the inner loop: where the first table stands whose
      dependencies are all placed, or the end of the list. */
  method FirstContained(tables: seq<Table>, indexes: seq<nat>, placed: seq<Table>,
                        ghost nodes: seq<Node>, ghost placedNodes: seq<Node>) returns (m: nat)
    requires nodes == Nodes(tables) && placedNodes == Nodes(placed)
    requires forall k | 0 <= k < |indexes| :: indexes[k] < |tables|
    ensures nodes == Nodes(tables) && m <= |indexes|
    ensures m < |indexes| ==> Ready(placedNodes, nodes[indexes[m]])
    ensures forall k | 0 <= k < m :: !Ready(placedNodes, nodes[indexes[k]])
  {
    AllContainedIffReady(tables, placed);
    m := 0;
    while m < |indexes| && !tables[indexes[m]].AreAllDependenciesContained(placed)
      invariant m <= |indexes|
      invariant forall k | 0 <= k < m :: !Ready(placedNodes, nodes[indexes[k]])
    {
      m := m + 1;
    }
  }

  /** The restart loop of SortTables. */
  method PlaceTables(tables: seq<Table>) returns (outcome: SortOutcome, ghost order: seq<nat>)
    ensures outcome.Sorted? <==> CanBeOrdered(Nodes(tables))
    ensures outcome.NeverEnds? ==> Stuck(tables, outcome.placed)
    ensures outcome.Sorted? ==>
      && multiset(outcome.order) == multiset(tables)
      && DepsFirst(Nodes(outcome.order))
      && Greedy(Nodes(tables), order)
      && PicksTables(tables, order, outcome.order)
  {
    var tablesSorted: seq<Table> := [];
    var tablesIndexes: seq<nat> := [];
    for i := 0 to |tables|
      invariant |tablesIndexes| == i && forall k | 0 <= k < i :: tablesIndexes[k] == k
    {
      tablesIndexes := tablesIndexes + [i];
    }
    ghost var nodes := Nodes(tables);
    order := [];
    AllWait(|tables|, tablesIndexes);
    while |tablesIndexes| > 0
      invariant nodes == Nodes(tables)
      invariant Waiting(|tables|, order, tablesIndexes) && Greedy(nodes, order)
      invariant PicksTables(tables, order, tablesSorted)
      decreases |tablesIndexes|
    {
      PickedNodes(tables, order, tablesSorted);
      var metaIndex := FirstContained(tables, tablesIndexes, tablesSorted, nodes, Pick(nodes, order));
      if metaIndex == |tablesIndexes| {
        NoOrderExists(nodes, order, tablesIndexes);
        NothingReadyIsStuck(tables, order, tablesIndexes, tablesSorted);
        return NeverEnds(tablesSorted), order;
      }
      FirstReadyIsGreedy(nodes, order, tablesIndexes, metaIndex);
      PicksOneMore(tables, order, tablesSorted, tablesIndexes[metaIndex]);
      tablesSorted := tablesSorted + [tables[tablesIndexes[metaIndex]]];
      order := order + [tablesIndexes[metaIndex]];
      tablesIndexes := Without(tablesIndexes, metaIndex);
    }
    PlacedAll(tables, order, tablesSorted);
    outcome := Sorted(tablesSorted);
  }
}
