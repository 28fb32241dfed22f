/** What an insertion order is, and what the greedy choice of db/utils.go does
    with it: the part of SortTables that does not depend on the heap. */
module RunOrder {
  import opened Sequences

  /** A table as the sort sees it: its lower-cased name, and the lower-cased
      names it must wait for. Two tables may share a name. */
  datatype Node = Node(name: string, needs: set<string>)

  function NamesOf(placed: seq<Node>): set<string> {
    set p <- placed :: p.name
  }

  predicate Ready(placed: seq<Node>, n: Node) {
    n.needs <= NamesOf(placed)
  }

  /** Every table comes after some table of each name it waits for. */
  ghost predicate DepsFirst(order: seq<Node>) {
    forall k | 0 <= k < |order| :: Ready(order[..k], order[k])
  }

  /** Some arrangement of exactly these tables respects every dependency. */
  ghost predicate CanBeOrdered(nodes: seq<Node>) {
    exists o: seq<Node> :: multiset(o) == multiset(nodes) && DepsFirst(o)
  }

  /** A waiting table never stops being ready when more tables are placed. */
  lemma ReadyIsMonotone(before: seq<Node>, after: seq<Node>, n: Node)
    requires Ready(before, n) && forall p <- before :: p in after
    ensures Ready(after, n)
  {
    assert NamesOf(before) <= NamesOf(after);
  }

  // Orders as lists of positions in the input.

  ghost predicate Positions(nodes: seq<Node>, order: seq<nat>) {
    && (forall k | 0 <= k < |order| :: order[k] < |nodes|)
    && Distinct(order)
  }

  function Pick(nodes: seq<Node>, order: seq<nat>): (picked: seq<Node>)
    requires forall k | 0 <= k < |order| :: order[k] < |nodes|
  {
    seq(|order|, k requires 0 <= k < |order| => nodes[order[k]])
  }

  ghost predicate NoneReadyBelow(nodes: seq<Node>, placed: seq<nat>, bound: nat)
    requires Positions(nodes, placed) && bound <= |nodes|
  {
    forall i | 0 <= i < bound && i !in placed :: !Ready(Pick(nodes, placed), nodes[i])
  }

  /** Every choice was ready, and nothing before it in the input was. */
  ghost predicate Greedy(nodes: seq<Node>, order: seq<nat>) {
    && Positions(nodes, order)
    && forall k | 0 <= k < |order| ::
         && Ready(Pick(nodes, order[..k]), nodes[order[k]])
         && NoneReadyBelow(nodes, order[..k], order[k])
  }

  lemma GreedyExtends(nodes: seq<Node>, placed: seq<nat>, i: nat)
    requires Greedy(nodes, placed) && i < |nodes| && i !in placed
    requires Ready(Pick(nodes, placed), nodes[i]) && NoneReadyBelow(nodes, placed, i)
    ensures Greedy(nodes, placed + [i])
  {
    var order := placed + [i];
    forall k | 0 <= k < |order|
      ensures Ready(Pick(nodes, order[..k]), nodes[order[k]]) && NoneReadyBelow(nodes, order[..k], order[k])
    {
      assert k < |placed| ==> order[..k] == placed[..k];
      assert k == |placed| ==> order[..k] == placed;
    }
  }

  lemma GreedyDepsFirst(nodes: seq<Node>, order: seq<nat>)
    requires Greedy(nodes, order)
    ensures DepsFirst(Pick(nodes, order))
  {
    var picked := Pick(nodes, order);
    forall k | 0 <= k < |picked|
      ensures Ready(picked[..k], picked[k])
    {
      assert picked[..k] == Pick(nodes, order[..k]);
    }
  }

  lemma {:induction false} FirstOutside(order: seq<Node>, done: seq<Node>, j: nat) returns (k: nat)
    requires j < |order| && order[j] !in done
    ensures k <= j && order[k] !in done && forall p <- order[..k] :: p in done
  {
    if i :| 0 <= i < j && order[i] !in done {
      k := FirstOutside(order, done, i);
    } else {
      k := j;
    }
  }

  lemma PickedIsPlaced(nodes: seq<Node>, placed: seq<nat>, i: nat)
    requires Positions(nodes, placed)
    ensures i in placed ==> nodes[i] in Pick(nodes, placed)
  {
    if m :| 0 <= m < |placed| && placed[m] == i {
      assert Pick(nodes, placed)[m] == nodes[i];
    }
  }

  lemma PickPrefix(nodes: seq<Node>, order: seq<nat>, k: nat)
    requires Positions(nodes, order) && k <= |order|
    ensures Pick(nodes, order[..k]) == Pick(nodes, order)[..k]
  {
  }

  lemma PlacedStaysReady(nodes: seq<Node>, placed: seq<nat>, i: nat)
    requires Greedy(nodes, placed) && i < |nodes| && nodes[i] in Pick(nodes, placed)
    ensures Ready(Pick(nodes, placed), nodes[i])
  {
    var done := Pick(nodes, placed);
    var m :| 0 <= m < |done| && done[m] == nodes[i];
    PickPrefix(nodes, placed, m);
    assert Ready(done[..m], nodes[placed[m]]);
    ReadyIsMonotone(done[..m], done, nodes[i]);
  }

  /** When nothing left is ready, no arrangement of the tables at all, however
      it starts, respects the dependencies: no earlier choice is to blame. */
  lemma StuckMeansNoOrder(nodes: seq<Node>, placed: seq<nat>, left: nat, order: seq<Node>)
    requires Greedy(nodes, placed) && left < |nodes| && left !in placed
    requires NoneReadyBelow(nodes, placed, |nodes|)
    requires multiset(order) == multiset(nodes)
    ensures !DepsFirst(order)
  {
    var done := Pick(nodes, placed);
    assert nodes[left] in multiset(order);
    var j :| 0 <= j < |order| && order[j] == nodes[left];
    if nodes[left] in done {
      PlacedStaysReady(nodes, placed, left);
      assert false;
    }
    var k := FirstOutside(order, done, j);
    assert order[k] in multiset(nodes);
    var i :| 0 <= i < |nodes| && nodes[i] == order[k];
    PickedIsPlaced(nodes, placed, i);
    if Ready(order[..k], order[k]) {
      ReadyIsMonotone(order[..k], done, order[k]);
    }
  }

  /** If every table of some name waits for that name, no order is possible. */
  lemma OwnNameBlocks(nodes: seq<Node>, i: nat)
    requires i < |nodes|
    requires forall j | 0 <= j < |nodes| && nodes[j].name == nodes[i].name :: nodes[i].name in nodes[j].needs
    ensures !CanBeOrdered(nodes)
  {
    forall o: seq<Node> | multiset(o) == multiset(nodes)
      ensures !DepsFirst(o)
    {
      assert nodes[i] in multiset(o);
      var k :| 0 <= k < |o| && o[k] == nodes[i];
      FirstOfItsNameIsNotReady(nodes, nodes[i].name, o, k);
    }
  }

  lemma {:induction false} FirstOfItsNameIsNotReady(nodes: seq<Node>, name: string, o: seq<Node>, k: nat)
    requires forall j | 0 <= j < |nodes| && nodes[j].name == name :: name in nodes[j].needs
    requires multiset(o) == multiset(nodes) && k < |o| && o[k].name == name
    ensures !DepsFirst(o)
    decreases k
  {
    assert o[k] in multiset(nodes);
    var j :| 0 <= j < |nodes| && nodes[j] == o[k];
    if Ready(o[..k], o[k]) {
      assert name in NamesOf(o[..k]);
      var m :| 0 <= m < k && o[m].name == name;
      FirstOfItsNameIsNotReady(nodes, name, o, m);
    }
  }

  lemma {:induction false} FirstDifference(a: seq<nat>, b: seq<nat>) returns (k: nat)
    requires |a| == |b| && a != b
    ensures k < |a| && a[..k] == b[..k] && a[k] != b[k]
  {
    if a[0] != b[0] {
      k := 0;
    } else {
      assert a == [a[0]] + a[1..] && b == [b[0]] + b[1..];
      var j := FirstDifference(a[1..], b[1..]);
      k := j + 1;
      assert a[..k] == [a[0]] + a[1..][..j] && b[..k] == [b[0]] + b[1..][..j];
    }
  }

  /** The greedy order is the least of all valid orders: any other one takes a
      later table of the input at the first place where the two differ. */
  lemma GreedyIsLeast(nodes: seq<Node>, order: seq<nat>, other: seq<nat>)
    requires Greedy(nodes, order) && |order| == |nodes|
    requires Positions(nodes, other) && |other| == |nodes| && DepsFirst(Pick(nodes, other))
    ensures order == other || exists k | 0 <= k < |nodes| :: order[..k] == other[..k] && order[k] < other[k]
  {
    if order != other {
      var k := FirstDifference(order, other);
      assert Pick(nodes, other)[..k] == Pick(nodes, order[..k]);
      assert Ready(Pick(nodes, order[..k]), Pick(nodes, other)[k]);
      assert other[k] !in other[..k];
      assert order[..k] == other[..k] && order[k] < other[k];
    }
  }

  // The bookkeeping of the sort: which positions still wait.

  /** `indexes` are the positions below `n` not yet in `order`, ascending. */
  ghost predicate Waiting(n: nat, order: seq<nat>, indexes: seq<nat>) {
    && (forall k | 0 <= k < |indexes| :: indexes[k] < n)
    && (forall i :: i in indexes <==> 0 <= i < n && i !in order)
    && (forall a, b | 0 <= a < b < |indexes| :: indexes[a] < indexes[b])
  }

  /** Placing the first ready table of the waiting list is a greedy step. */
  lemma FirstReadyIsGreedy(nodes: seq<Node>, order: seq<nat>, indexes: seq<nat>, m: nat)
    requires Greedy(nodes, order) && Waiting(|nodes|, order, indexes) && m < |indexes|
    requires Ready(Pick(nodes, order), nodes[indexes[m]])
    requires forall k | 0 <= k < m :: !Ready(Pick(nodes, order), nodes[indexes[k]])
    ensures Greedy(nodes, order + [indexes[m]])
    ensures Waiting(|nodes|, order + [indexes[m]], Without(indexes, m))
  {
    assert indexes[m] in indexes;
    forall i: nat | i < indexes[m] && i !in order
      ensures !Ready(Pick(nodes, order), nodes[i])
    {
      assert i in indexes;
      var k :| 0 <= k < |indexes| && indexes[k] == i;
      assert k < m;
    }
    GreedyExtends(nodes, order, indexes[m]);
    DeleteKeepsWaiting(|nodes|, order, indexes, m);
  }

  lemma AllWait(n: nat, indexes: seq<nat>)
    requires |indexes| == n && forall k | 0 <= k < n :: indexes[k] == k
    ensures Waiting(n, [], indexes)
  {
    forall i: nat | i < n
      ensures i in indexes
    {
      assert indexes[i] == i;
    }
  }

  lemma DeleteKeepsWaiting(n: nat, order: seq<nat>, indexes: seq<nat>, m: nat)
    requires Waiting(n, order, indexes) && m < |indexes|
    ensures Waiting(n, order + [indexes[m]], Without(indexes, m))
  {
    WithoutMembers(indexes, m);
  }

  lemma NoOrderExists(nodes: seq<Node>, order: seq<nat>, indexes: seq<nat>)
    requires Greedy(nodes, order) && Waiting(|nodes|, order, indexes) && indexes != []
    requires forall k | 0 <= k < |indexes| :: !Ready(Pick(nodes, order), nodes[indexes[k]])
    ensures !CanBeOrdered(nodes)
  {
    assert indexes[0] in indexes;
    forall i | 0 <= i < |nodes| && i !in order
      ensures !Ready(Pick(nodes, order), nodes[i])
    {
      assert i in indexes;
    }
    forall o: seq<Node> | multiset(o) == multiset(nodes)
      ensures !DepsFirst(o)
    {
      StuckMeansNoOrder(nodes, order, indexes[0], o);
    }
  }

  /** The greedy order, once nothing waits any more, is a valid order of all tables. */
  lemma CompleteGreedyIsOrder(nodes: seq<Node>, order: seq<nat>)
    requires Greedy(nodes, order) && Waiting(|nodes|, order, [])
    ensures CanBeOrdered(nodes) && DepsFirst(Pick(nodes, order))
  {
    assert forall k | 0 <= k < |order| :: order[k] in order;
    CompleteIsPermutation(nodes, order, Pick(nodes, order));
    GreedyDepsFirst(nodes, order);
  }
}
