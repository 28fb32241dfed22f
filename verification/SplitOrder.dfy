/** What becomes of split tables in the sort: their copies go first, and splitting
    is as good as dropping the self-references. */
module SplitOrder {
  import opened Text
  import opened Sequences
  import opened Schema
  import opened RunOrder
  import opened TableSort

  /** In every completed sort the copy is placed before the original, provided
      the two are the only tables of that name and the redirected key is flagged. */
  lemma CopyComesFirst(order: seq<Table>, k: nat, copy: Table, home: Constraint)
    requires DepsFirst(Nodes(order)) && k < |order|
    requires home in order[k].constraints && home.willBeInsertedDuringThisRun
    requires SameName(home.referencedTableName, order[k].name)
    requires forall i | 0 <= i < |order| && i != k && SameName(order[i].name, order[k].name) :: order[i] == copy
    ensures exists j :: 0 <= j < k && order[j] == copy
  {
    PlacedAfterItsParents(order, k);
    var j := ParentBefore(order[k], order[..k], home);
    assert order[..k][j] == order[j];
  }

  lemma PlacedAfterItsParents(order: seq<Table>, k: nat)
    requires DepsFirst(Nodes(order)) && k < |order|
    ensures order[k].AreAllDependenciesContained(order[..k])
  {
    var nodes := Nodes(order);
    assert Ready(nodes[..k], nodes[k]);
    NodesPrefix(order, k);
    ContainedIffReady(order[k], order[..k]);
  }

  lemma ParentBefore(t: Table, before: seq<Table>, c: Constraint) returns (j: nat)
    requires t.AreAllDependenciesContained(before) && c in t.constraints && c.willBeInsertedDuringThisRun
    ensures j < |before| && SameName(before[j].name, c.referencedTableName)
  {
    var i :| 0 <= i < |t.constraints| && t.constraints[i] == c;
    assert ListsName(before, t.constraints[i].referencedTableName);
    j :| 0 <= j < |before| && SameName(before[j].name, c.referencedTableName);
  }

  /** The copy of a self-referencing table: it waits for all but its own name. */
  function CopyOf(n: Node): Node {
    Node(n.name, n.needs - {n.name})
  }

  /** That is how the sort sees the copy when the removed key is the only one
      that names the table itself. */
  lemma CopyAsNode(t: Table, copy: Table, cidx: nat)
    requires cidx < |t.constraints| && copy.name == t.name
    requires copy.constraints == t.constraints[..cidx] + t.constraints[cidx + 1..]
    requires SameName(t.constraints[cidx].referencedTableName, t.name)
    requires forall i | 0 <= i < |t.constraints| && i != cidx ::
      Lower(t.constraints[i].referencedTableName) != Lower(t.name)
    ensures NodeOf(copy) == CopyOf(NodeOf(t))
  {
    var ours, theirs := NodeOf(t).needs, NodeOf(copy).needs;
    forall i | 0 <= i < |t.constraints| && i != cidx
      ensures t.constraints[i] in copy.constraints
    {
      assert copy.constraints[if i < cidx then i else i - 1] == t.constraints[i];
    }
    forall name
      ensures name in theirs <==> name in ours && name != Lower(t.name)
    {
      if c :|
        && c in t.constraints && c.willBeInsertedDuringThisRun
        && Lower(c.referencedTableName) == name && name != Lower(t.name)
      {
        var i :| 0 <= i < |t.constraints| && t.constraints[i] == c;
        assert t.constraints[i] in copy.constraints;
      }
      if c :| c in copy.constraints && c.willBeInsertedDuringThisRun && Lower(c.referencedTableName) == name {
        var j :| 0 <= j < |copy.constraints| && copy.constraints[j] == c;
        assert t.constraints[if j < cidx then j else j + 1] == c;
      }
    }
  }

  /** From an order in which copy and original stand at `p` and `q`: the copy at
      the earlier place is enough for everybody. */
  lemma DropLater(o: seq<Node>, n: Node, p: nat, q: nat)
    requires DepsFirst(o) && p < q < |o|
    requires o[p].name == o[q].name == n.name && CopyOf(n).needs <= o[p].needs
    ensures DepsFirst(Without(o[p := CopyOf(n)], q))
  {
    var less := Without(o[p := CopyOf(n)], q);
    forall k | 0 <= k < |less|
      ensures Ready(less[..k], less[k])
    {
      var was := if k < q then k else k + 1;
      assert Ready(o[..was], o[was]);
      forall name | name in RunOrder.NamesOf(o[..was])
        ensures name in RunOrder.NamesOf(less[..k])
      {
        var j :| 0 <= j < was && o[j].name == name;
        var m := if j == q then p else if j < q then j else j - 1;
        assert less[..k][m].name == name && less[..k][m] in less[..k];
      }
    }
  }

  lemma Exchange(w: multiset<Node>, r: multiset<Node>, all: multiset<Node>, copy: Node, a: Node, b: Node)
    requires r + multiset{copy} == w + multiset{b} && all == r + multiset{a}
    ensures w + multiset{a, b} == all + multiset{copy}
  {
    forall x: Node
      ensures (w + multiset{a, b})[x] == (all + multiset{copy})[x]
    {
      assert (r + multiset{copy})[x] == (w + multiset{b})[x];
    }
  }

  lemma DropLaterMultiset(o: seq<Node>, copy: Node, p: nat, q: nat)
    requires p < q < |o|
    ensures multiset(Without(o[p := copy], q)) + multiset{o[p], o[q]} == multiset(o) + multiset{copy}
  {
    WithoutMultiset(o[p := copy], q);
    WithoutMultiset(o, p);
    WithoutMultiset(o[p := copy], p);
    assert Without(o, p) == Without(o[p := copy], p);
    var w, r := multiset(Without(o[p := copy], q)), multiset(Without(o, p));
    Exchange(w, r, multiset(o), copy, o[p], o[q]);
  }

  lemma CopyInstead(less: multiset<Node>, nodes: seq<Node>, i: nat, copy: Node)
    requires i < |nodes| && less + multiset{copy, nodes[i]} == multiset([copy] + nodes) + multiset{copy}
    ensures less == multiset(nodes[i := copy])
  {
    var n, all := nodes[i], multiset(nodes);
    assert multiset([copy] + nodes) == multiset{copy} + all;
    forall x: Node
      ensures less[x] == multiset(nodes[i := copy])[x]
    {
      assert (less + multiset{copy, n})[x] == less[x] + multiset{copy, n}[x];
      assert (multiset{copy} + all + multiset{copy})[x] == all[x] + 2 * multiset{copy}[x];
      assert multiset(nodes[i := copy]) == all - multiset{n} + multiset{copy} && n in all;
    }
  }

  lemma CopyBeside(nodes: seq<Node>, i: nat, copy: Node)
    requires i < |nodes|
    ensures multiset([copy] + nodes) == multiset(nodes[i := copy]) + multiset{nodes[i]}
  {
    assert multiset([copy] + nodes) == multiset{copy} + multiset(nodes);
    assert nodes[i] in multiset(nodes);
  }

  lemma InsertedMultiset(o: seq<Node>, k: nat, n: Node)
    requires k <= |o|
    ensures multiset(o[..k] + [n] + o[k..]) == multiset(o) + multiset{n}
  {
    assert o == o[..k] + o[k..];
  }

  /** After the copy there is room for the original. */
  lemma InsertOriginal(o: seq<Node>, n: Node, p: nat)
    requires DepsFirst(o) && p < |o| && o[p] == CopyOf(n)
    ensures DepsFirst(o[..p + 1] + [n] + o[p + 1..])
  {
    var more := o[..p + 1] + [n] + o[p + 1..];
    forall k | 0 <= k < |more|
      ensures Ready(more[..k], more[k])
    {
      if k <= p {
        assert more[..k] == o[..k];
      } else if k == p + 1 {
        assert Ready(o[..p], o[p]);
        assert more[..k] == o[..p + 1] && o[..p + 1][p] == o[p];
        ReadyIsMonotone(o[..p], o[..p + 1], o[p]);
        assert o[p] in o[..p + 1];
      } else {
        assert Ready(o[..k - 1], o[k - 1]);
        assert forall j | 0 <= j < k - 1 :: o[j] == more[..k][if j <= p then j else j + 1];
        ReadyIsMonotone(o[..k - 1], more[..k], o[k - 1]);
      }
    }
  }

  lemma DroppedFromSplit(nodes: seq<Node>, i: nat, o: seq<Node>)
    requires i < |nodes| && nodes[i].name in nodes[i].needs
    requires multiset(o) == multiset([CopyOf(nodes[i])] + nodes) && DepsFirst(o)
    ensures CanBeOrdered(nodes[i := CopyOf(nodes[i])])
  {
    var n, copy := nodes[i], CopyOf(nodes[i]);
    var split := [copy] + nodes;
    assert split[0] in multiset(o) && split[i + 1] in multiset(o);
    var a :| 0 <= a < |o| && o[a] == copy;
    var b :| 0 <= b < |o| && o[b] == n;
    var p, q := if a < b then a else b, if a < b then b else a;
    DropLater(o, n, p, q);
    DropLaterMultiset(o, copy, p, q);
    assert multiset{o[p], o[q]} == multiset{copy, n};
    CopyInstead(multiset(Without(o[p := copy], q)), nodes, i, copy);
  }

  lemma SplitFromDropped(nodes: seq<Node>, i: nat, o: seq<Node>)
    requires i < |nodes| && nodes[i].name in nodes[i].needs
    requires multiset(o) == multiset(nodes[i := CopyOf(nodes[i])]) && DepsFirst(o)
    ensures CanBeOrdered([CopyOf(nodes[i])] + nodes)
  {
    var n, copy := nodes[i], CopyOf(nodes[i]);
    var p := PlaceOf(o, nodes[i := copy], i);
    var more := o[..p + 1] + [n] + o[p + 1..];
    InsertOriginal(o, n, p);
    InsertedMultiset(o, p + 1, n);
    CopyBeside(nodes, i, copy);
    assert multiset(more) == multiset([copy] + nodes) && DepsFirst(more);
  }

  lemma PlaceOf(o: seq<Node>, nodes: seq<Node>, i: nat) returns (p: nat)
    requires multiset(o) == multiset(nodes) && i < |nodes|
    ensures p < |o| && o[p] == nodes[i]
  {
    assert nodes[i] in multiset(o);
    p :| 0 <= p < |o| && o[p] == nodes[i];
  }

  /** Splitting is exactly as good as dropping the self-reference: the run with
      the copy can be ordered iff the run could be if the table did not reference itself. */
  lemma SplitSortsIffDropped(nodes: seq<Node>, i: nat)
    requires i < |nodes| && nodes[i].name in nodes[i].needs
    ensures CanBeOrdered([CopyOf(nodes[i])] + nodes) <==> CanBeOrdered(nodes[i := CopyOf(nodes[i])])
  {
    if o: seq<Node> :| multiset(o) == multiset([CopyOf(nodes[i])] + nodes) && DepsFirst(o) {
      DroppedFromSplit(nodes, i, o);
    }
    if o: seq<Node> :| multiset(o) == multiset(nodes[i := CopyOf(nodes[i])]) && DepsFirst(o) {
      SplitFromDropped(nodes, i, o);
    }
  }

  // Several splits in one run.

  predicate OwnNeed(n: Node) {
    n.name in n.needs
  }

  /** The copies, in the order in which the program puts them in front. */
  function Copies(nodes: seq<Node>): seq<Node> {
    if nodes == [] then []
    else
      var last := |nodes| - 1;
      (if OwnNeed(nodes[last]) then [CopyOf(nodes[last])] else []) + Copies(nodes[..last])
  }

  /** The run as it would be without self-references. */
  function Dropped(nodes: seq<Node>): (dropped: seq<Node>)
    ensures |dropped| == |nodes| && forall i | 0 <= i < |nodes| :: dropped[i] == CopyOf(nodes[i])
  {
    seq(|nodes|, i requires 0 <= i < |nodes| => CopyOf(nodes[i]))
  }

  /** The first `k` nodes with their copies, the others without self-reference. */
  function SplitUpTo(nodes: seq<Node>, k: nat): seq<Node>
    requires k <= |nodes|
  {
    Copies(nodes[..k]) + (nodes[..k] + Dropped(nodes[k..]))
  }

  lemma ReplaceInside<T>(a: seq<T>, b: seq<T>, x: T, c: seq<T>, y: T)
    ensures (a + (b + [x] + c))[|a| + |b|] == x
    ensures (a + (b + [x] + c))[|a| + |b| := y] == a + (b + ([y] + c))
  {
  }

  /** The run before the next split. */
  function BeforeSplit(nodes: seq<Node>, k: nat): seq<Node>
    requires k < |nodes|
  {
    Copies(nodes[..k]) + (nodes[..k] + [nodes[k]] + Dropped(nodes[k + 1..]))
  }

  lemma SplitStep(nodes: seq<Node>, k: nat, n: Node, i: nat)
    requires k < |nodes| && n == nodes[k] && i == |Copies(nodes[..k])| + k
    ensures SplitUpTo(nodes, k + 1) == (if OwnNeed(n) then [CopyOf(n)] else []) + BeforeSplit(nodes, k)
    ensures i < |BeforeSplit(nodes, k)| && BeforeSplit(nodes, k)[i] == n
    ensures BeforeSplit(nodes, k)[i := CopyOf(n)] == SplitUpTo(nodes, k)
  {
    var copies, rest := Copies(nodes[..k]), Dropped(nodes[k + 1..]);
    TakeOneMore(nodes, k);
    CopiesSnoc(nodes[..k], n);
    DroppedFirst(nodes, k);
    ReplaceInside(copies, nodes[..k], n, rest, CopyOf(n));
    Regroup(if OwnNeed(n) then [CopyOf(n)] else [], copies, nodes[..k] + [n] + rest);
  }

  /** Between two such runs lies one split, or nothing. */
  lemma OneSplitMore(nodes: seq<Node>, k: nat)
    requires k < |nodes|
    ensures CanBeOrdered(SplitUpTo(nodes, k + 1)) <==> CanBeOrdered(SplitUpTo(nodes, k))
  {
    var n, i := nodes[k], |Copies(nodes[..k])| + k;
    SplitStep(nodes, k, n, i);
    if OwnNeed(n) {
      SplitSortsIffDropped(BeforeSplit(nodes, k), i);
    } else {
      NothingReplaced(BeforeSplit(nodes, k), i);
      assert CopyOf(n) == n;
    }
  }

  lemma NothingReplaced<T>(s: seq<T>, i: nat)
    requires i < |s|
    ensures s[i := s[i]] == s && [] + s == s
  {
  }

  lemma CopiesSnoc(nodes: seq<Node>, n: Node)
    ensures Copies(nodes + [n]) == (if OwnNeed(n) then [CopyOf(n)] else []) + Copies(nodes)
  {
    assert (nodes + [n])[..|nodes|] == nodes;
  }

  lemma DroppedFirst(nodes: seq<Node>, k: nat)
    requires k < |nodes|
    ensures Dropped(nodes[k..]) == [CopyOf(nodes[k])] + Dropped(nodes[k + 1..])
  {
  }

  lemma {:induction false} SplitsSortIffDroppedUpTo(nodes: seq<Node>, k: nat)
    requires k <= |nodes|
    ensures CanBeOrdered(SplitUpTo(nodes, k)) <==> CanBeOrdered(SplitUpTo(nodes, 0))
  {
    if k > 0 {
      SplitsSortIffDroppedUpTo(nodes, k - 1);
      OneSplitMore(nodes, k - 1);
    }
  }

  /** All splits of a run together: it can be ordered with all the copies exactly
      when it could be if no table referenced itself. */
  lemma SplitsSortIffDropped(nodes: seq<Node>)
    ensures CanBeOrdered(Copies(nodes) + nodes) <==> CanBeOrdered(Dropped(nodes))
  {
    SplitsSortIffDroppedUpTo(nodes, |nodes|);
    TakeAll(nodes);
    assert nodes[|nodes|..] == [] && nodes + Dropped([]) == nodes;
    assert nodes[0..] == nodes && SplitUpTo(nodes, 0) == Dropped(nodes);
  }

  /** A table whose flagged key names the table itself - which is what a flipped
      virtual key does - and that has no copy in the run: the sort never ends. */
  lemma OwnKeyBlocksTheSort(tables: seq<Table>, i: nat, c: Constraint)
    requires i < |tables| && c in tables[i].constraints && c.willBeInsertedDuringThisRun
    requires SameName(c.referencedTableName, tables[i].name)
    requires forall j | 0 <= j < |tables| && Lower(tables[j].name) == Lower(tables[i].name) :: tables[j] == tables[i]
    ensures !CanBeOrdered(Nodes(tables))
  {
    var nodes := Nodes(tables);
    assert nodes[i] == NodeOf(tables[i]);
    assert Lower(c.referencedTableName) in NodeOf(tables[i]).needs;
    forall j | 0 <= j < |nodes| && nodes[j].name == nodes[i].name
      ensures nodes[j] == nodes[i]
    {
      assert nodes[j] == NodeOf(tables[j]);
    }
    OwnNameBlocks(nodes, i);
  }
}
