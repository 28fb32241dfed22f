/** The references that keys make between the listed tables, and what a join that
    closes a circle, or is turned round by the guard, does to the sort. */
module JoinCycles {
  import opened Text
  import opened ReferenceGraph
  import opened RunOrder
  import opened RunGraph
  import opened Loader
  import opened VirtualJoins
  import opened VirtualEdges
  import opened JoinSteps
  import opened JoinMirror

  // The references between the listed tables.

  /** The places of the listed tables that the keys name. */
  function Targets(links: seq<Link>, run: seq<Entry>): (targets: seq<nat>)
    ensures forall k | 0 <= k < |targets| :: targets[k] < |run|
    ensures forall j <- targets :: exists l <- links :: j == EntryNamed(run, l.parent)
    ensures forall l <- links | EntryNamed(run, l.parent) < |run| :: EntryNamed(run, l.parent) in targets
  {
    if links == [] then []
    else
      var j := EntryNamed(run, links[0].parent);
      (if j < |run| then [j] else []) + Targets(links[1..], run)
  }

  function LinkGraph(run: seq<Entry>): (graph: Refs<nat>)
    ensures (forall i: nat :: i in graph <==> i < |run|) && Closed(graph)
    ensures forall i: nat | i < |run| :: graph[i] == Targets(run[i].links, run)
  {
    map i: nat | i < |run| :: Targets(run[i].links, run)
  }

  /** No name is listed twice, whatever its case. */
  ghost predicate DistinctRun(run: seq<Entry>) {
    forall i, j | 0 <= i < j < |run| :: !SameName(run[i].table.table, run[j].table.table)
  }

  lemma EntryNamedAt(run: seq<Entry>, name: string, i: nat)
    requires DistinctRun(run) && i < |run| && SameName(run[i].table.table, name)
    ensures EntryNamed(run, name) == i
  {
  }

  function LowerNames(run: seq<Entry>): (tags: map<nat, string>)
    ensures forall i: nat :: i in tags <==> i < |run|
  {
    map i: nat | i < |run| :: Lower(run[i].table.table)
  }

  lemma TargetsAreListed(run: seq<Entry>, i: nat)
    requires i < |run|
    ensures forall j <- LinkGraph(run)[i] :: j in LowerNames(run)
  {
    var targets := LinkGraph(run)[i];
    forall j <- targets
      ensures j < |run|
    {
      var k :| 0 <= k < |targets| && targets[k] == j;
    }
  }

  lemma NeedIffTarget(run: seq<Entry>, i: nat, name: string)
    requires i < |run| && forall j <- LinkGraph(run)[i] :: j in LowerNames(run)
    ensures name in EntryNode(run[i], run).needs <==> name in TagsOf<nat>(LinkGraph(run)[i], LowerNames(run))
  {
    if name in EntryNode(run[i], run).needs {
      var l :| l in run[i].links && NamesTable(run, l.parent) && Lower(l.parent) == name;
      var j := EntryNamed(run, l.parent);
      assert j in LinkGraph(run)[i] && LowerNames(run)[j] == name;
    }
    if j :| j in LinkGraph(run)[i] && LowerNames(run)[j] == name {
      var l :| l in run[i].links && j == EntryNamed(run, l.parent);
      assert SameName(run[j].table.table, l.parent);
    }
  }

  /** Each listed table waits for the tables its keys name. */
  lemma EntryNodeOf(run: seq<Entry>, i: nat)
    requires i < |run|
    ensures forall j <- LinkGraph(run)[i] :: j in LowerNames(run)
    ensures EntryNode(run[i], run) == Node(LowerNames(run)[i], TagsOf<nat>(LinkGraph(run)[i], LowerNames(run)))
  {
    TargetsAreListed(run, i);
    forall name: string
      ensures name in EntryNode(run[i], run).needs <==> name in TagsOf<nat>(LinkGraph(run)[i], LowerNames(run))
    {
      NeedIffTarget(run, i, name);
    }
  }

  lemma LowerNamesDiffer(run: seq<Entry>)
    requires DistinctRun(run)
    ensures UniqueNames<nat>(LowerNames(run))
  {
    forall i, j | i in LowerNames(run) && j in LowerNames(run) && LowerNames(run)[i] == LowerNames(run)[j]
      ensures i == j
    {
      assert SameName(run[i].table.table, run[j].table.table) && SameName(run[j].table.table, run[i].table.table);
    }
  }

  function Places(n: nat): (places: seq<nat>)
    ensures |places| == n && forall i | 0 <= i < n :: places[i] == i
  {
    seq(n, i => i)
  }

  /** With distinct names the sort ends exactly if the keys between the listed
      tables form no cycle. */
  lemma OrderedIffNoCycle(run: seq<Entry>)
    requires DistinctRun(run)
    ensures CanBeOrdered(EntryNodes(run, run)) <==> Acyclic<nat>(LinkGraph(run))
  {
    var places := Places(|run|);
    LowerNamesDiffer(run);
    forall i | 0 <= i < |places|
      ensures places[i] in LinkGraph(run) && forall j <- LinkGraph(run)[places[i]] :: j in LowerNames(run)
      ensures EntryNodes(run, run)[i]
           == Node(LowerNames(run)[places[i]], TagsOf<nat>(LinkGraph(run)[places[i]], LowerNames(run)))
    {
      EntryNodeOf(run, i);
    }
    forall i <- LinkGraph(run)
      ensures i in places
    {
      assert places[i] == i;
    }
    OrderIffAcyclic<nat>(LinkGraph(run), LowerNames(run), places, EntryNodes(run, run));
  }

  // Joins only add.

  ghost predicate Longer(before: seq<Entry>, after: seq<Entry>) {
    |before| == |after| && forall i | 0 <= i < |before| ::
      after[i].table == before[i].table && before[i].links <= after[i].links
  }

  lemma {:induction false} SamePlaces(before: seq<Entry>, after: seq<Entry>, name: string)
    requires |before| == |after| && forall i | 0 <= i < |before| :: after[i].table == before[i].table
    ensures EntryNamed(before, name) == EntryNamed(after, name)
  {
    if before != [] {
      SamePlaces(before[1..], after[1..], name);
    }
  }

  lemma LongerKeeps(before: seq<Entry>, after: seq<Entry>)
    requires Longer(before, after)
    ensures Keeps<nat>(LinkGraph(before), LinkGraph(after))
  {
    forall i, j | i in LinkGraph(before) && j in LinkGraph(before)[i]
      ensures j in LinkGraph(after)[i]
    {
      var l :| l in before[i].links && j == EntryNamed(before, l.parent);
      SamePlaces(before, after, l.parent);
      assert l in after[i].links;
    }
  }

  lemma CycleStays(catalog: Catalog, s: JoinState, joins: seq<VirtualJoin>)
    requires s.Valid() && !Acyclic<nat>(LinkGraph(s.run))
    ensures !Acyclic<nat>(LinkGraph(AfterJoins(catalog, s, joins).run))
  {
    var after := AfterJoins(catalog, s, joins).run;
    LongerKeeps(s.run, after);
    if Acyclic<nat>(LinkGraph(after)) {
      AcyclicBefore<nat>(LinkGraph(s.run), LinkGraph(after));
    }
  }

  lemma LinkIsEdge(run: seq<Entry>, i: nat, l: Link)
    requires i < |run| && l in run[i].links && EntryNamed(run, l.parent) < |run|
    ensures EntryNamed(run, l.parent) in LinkGraph(run)[i]
  {
  }

  /** The edge of a join that became a key. */
  lemma AttachedEdge(s: JoinState, v: Verdict)
    requires s.Valid() && v.Attached? && v.child < |s.run| && EntryNamed(s.run, v.link.parent) < |s.run|
    ensures EntryNamed(s.run, v.link.parent) in LinkGraph(Turned(s, v).run)[v.child]
  {
    var after := Turned(s, v).run;
    SamePlaces(s.run, after, v.link.parent);
    assert after[v.child].links[|s.run[v.child].links|] == v.link;
    LinkIsEdge(after, v.child, v.link);
  }

  lemma CycleFound(graph: Refs<nat>, a: nat, b: nat)
    requires a in graph && b in graph && b in graph[a] && Reaches<nat>(graph, b, a)
    ensures !Acyclic<nat>(graph)
  {
  }

  // A join that closes a circle.

  lemma {:induction false} InTwoSteps(catalog: Catalog, s: JoinState, before: seq<VirtualJoin>, after: seq<VirtualJoin>)
    requires s.Valid() && !SomeRefused(catalog, s, before)
    ensures AfterJoins(catalog, s, before + after) == AfterJoins(catalog, AfterJoins(catalog, s, before), after)
    decreases |before|
  {
    if before == [] {
      assert before + after == after;
    } else {
      assert (before + after)[1..] == before[1..] + after;
      InTwoSteps(catalog, Turned(s, JudgeJoin(catalog, s, before[0])), before[1..], after);
    }
  }

  lemma ClosingEdge(before: seq<Entry>, after: seq<Entry>, child: nat, parent: nat)
    requires Longer(before, after) && child < |before| && parent in LinkGraph(after)[child]
    requires Reaches<nat>(LinkGraph(before), parent, child)
    ensures !Acyclic<nat>(LinkGraph(after))
  {
    LongerKeeps(before, after);
    ReachesKept<nat>(LinkGraph(before), LinkGraph(after), parent, child);
    CycleFound(LinkGraph(after), child, parent);
  }

  /** The key is the first listed child's, and points at one of the two sides. */
  lemma VerdictOf(catalog: Catalog, s: JoinState, join: VirtualJoin)
    requires JudgeJoin(catalog, s, join).Attached?
    ensures
      var v := JudgeJoin(catalog, s, join);
      && v.child == EntryNamed(s.run, join.right.table) < |s.run|
      && (v.link.parent == join.left.table || v.link.parent == join.right.table)
  {
  }

  /** The key goes either way, and closes a circle either way. */
  lemma ClosingTurn(catalog: Catalog, s: JoinState, join: VirtualJoin)
    requires s.Valid() && JudgeJoin(catalog, s, join).Attached? && EntryNamed(s.run, join.left.table) < |s.run|
    requires Reaches<nat>(LinkGraph(s.run), EntryNamed(s.run, join.left.table), EntryNamed(s.run, join.right.table))
    ensures !Acyclic<nat>(LinkGraph(Turned(s, JudgeJoin(catalog, s, join)).run))
  {
    var v := JudgeJoin(catalog, s, join);
    VerdictOf(catalog, s, join);
    AttachedEdge(s, v);
    if v.link.parent != join.left.table {
      ReachesRefl<nat>(LinkGraph(s.run), v.child);
    }
    ClosingEdge(s.run, Turned(s, v).run, v.child, EntryNamed(s.run, v.link.parent));
  }

  /** A join between listed tables whose parent already leads to its child
      becomes a key all the same, one way or the other, and the sort does not end, whatever
      joins come after. */
  lemma ClosingJoinNeverEnds(catalog: Catalog, s: JoinState, before: seq<VirtualJoin>, join: VirtualJoin,
                             after: seq<VirtualJoin>)
    requires s.Valid() && DistinctRun(s.run) && !SomeRefused(catalog, s, before + [join])
    requires
      var run := AfterJoins(catalog, s, before).run;
      var child, parent := EntryNamed(run, join.right.table), EntryNamed(run, join.left.table);
      && !CoveredBy(run, join) && child < |run| && parent < |run|
      && Reaches<nat>(LinkGraph(run), parent, child)
    ensures
      var run := AfterJoins(catalog, s, before + [join] + after).run;
      !CanBeOrdered(EntryNodes(run, run))
  {
    ClosingIsCycle(catalog, s, before, join);
    var closed := AfterJoins(catalog, s, before + [join]);
    InTwoSteps(catalog, s, before + [join], after);
    CycleStays(catalog, closed, after);
    SameTables(catalog, s, before + [join] + after);
    OrderedIffNoCycle(AfterJoins(catalog, s, before + [join] + after).run);
  }

  lemma SameTables(catalog: Catalog, s: JoinState, joins: seq<VirtualJoin>)
    requires s.Valid() && DistinctRun(s.run)
    ensures DistinctRun(AfterJoins(catalog, s, joins).run)
  {
  }

  lemma ClosingIsCycle(catalog: Catalog, s: JoinState, before: seq<VirtualJoin>, join: VirtualJoin)
    requires s.Valid() && !SomeRefused(catalog, s, before + [join])
    requires
      var run := AfterJoins(catalog, s, before).run;
      var child, parent := EntryNamed(run, join.right.table), EntryNamed(run, join.left.table);
      && !CoveredBy(run, join) && child < |run| && parent < |run|
      && Reaches<nat>(LinkGraph(run), parent, child)
    ensures !Acyclic<nat>(LinkGraph(AfterJoins(catalog, s, before + [join]).run))
  {
    var middle := AfterJoins(catalog, s, before);
    RefusedInTwoSteps(catalog, s, before, [join]);
    InTwoSteps(catalog, s, before, [join]);
    OneTurn(catalog, middle, join);
    ClosingTurn(catalog, middle, join);
  }

  lemma OneTurn(catalog: Catalog, s: JoinState, join: VirtualJoin)
    requires s.Valid()
    ensures SomeRefused(catalog, s, [join]) <==> JudgeJoin(catalog, s, join).Refused?
    ensures !SomeRefused(catalog, s, [join]) ==>
      AfterJoins(catalog, s, [join]) == Turned(s, JudgeJoin(catalog, s, join))
  {
    assert [join][1..] == [];
  }

  lemma {:induction false} RefusedInTwoSteps(catalog: Catalog, s: JoinState, before: seq<VirtualJoin>,
                                             after: seq<VirtualJoin>)
    requires s.Valid()
    ensures SomeRefused(catalog, s, before + after)
       <==> SomeRefused(catalog, s, before) || SomeRefused(catalog, AfterJoins(catalog, s, before), after)
    decreases |before|
  {
    if before == [] {
      assert before + after == after;
    } else {
      assert (before + after)[1..] == before[1..] + after;
      if !JudgeJoin(catalog, s, before[0]).Refused? {
        RefusedInTwoSteps(catalog, Turned(s, JudgeJoin(catalog, s, before[0])), before[1..], after);
      }
    }
  }

  // A join the guard turns round.

  /** The key points back at the name of the table it belongs to. */
  ghost predicate Flips(catalog: Catalog, s: JoinState, join: VirtualJoin) {
    var v := JudgeJoin(catalog, s, join);
    v.Attached? && GuardFires(s.graph, s.run[v.child].table.schema, join)
  }

  ghost predicate SomeFlip(catalog: Catalog, s: JoinState, joins: seq<VirtualJoin>)
    requires s.Valid()
    decreases |joins|
  {
    joins != [] && !JudgeJoin(catalog, s, joins[0]).Refused?
    && (Flips(catalog, s, joins[0]) || SomeFlip(catalog, Turned(s, JudgeJoin(catalog, s, joins[0])), joins[1..]))
  }

  predicate HasOwnKey(e: Entry) {
    exists l <- e.links :: SameName(l.parent, e.table.table)
  }

  /** Of the listed tables of one name all but the first reference that name. */
  ghost predicate LaterReferToOwnName(run: seq<Entry>) {
    forall i, j | 0 <= i < j < |run| && SameName(run[i].table.table, run[j].table.table) :: HasOwnKey(run[j])
  }

  lemma OwnKeyStays(before: seq<Entry>, after: seq<Entry>, i: nat)
    requires Longer(before, after) && i < |before| && HasOwnKey(before[i])
    ensures HasOwnKey(after[i])
  {
    var l :| l in before[i].links && SameName(l.parent, before[i].table.table);
    assert l in after[i].links;
  }

  lemma LaterStillRefer(before: seq<Entry>, after: seq<Entry>)
    requires Longer(before, after) && LaterReferToOwnName(before)
    ensures LaterReferToOwnName(after)
  {
    forall i, j | 0 <= i < j < |after| && SameName(after[i].table.table, after[j].table.table)
      ensures HasOwnKey(after[j])
    {
      OwnKeyStays(before, after, j);
    }
  }

  /** All listed tables of that name reference it. */
  ghost predicate AllHaveOwnKey(run: seq<Entry>, i: nat)
    requires i < |run|
  {
    forall j | 0 <= j < |run| && SameName(run[j].table.table, run[i].table.table) :: HasOwnKey(run[j])
  }

  lemma AllStillHaveOwnKey(before: seq<Entry>, after: seq<Entry>, i: nat)
    requires Longer(before, after) && i < |before| && AllHaveOwnKey(before, i)
    ensures AllHaveOwnKey(after, i)
  {
    forall j | 0 <= j < |after| && SameName(after[j].table.table, after[i].table.table)
      ensures HasOwnKey(after[j])
    {
      OwnKeyStays(before, after, j);
    }
  }

  /** Such a name keeps the sort from ending. */
  lemma OwnKeysNeverEnd(run: seq<Entry>, i: nat)
    requires i < |run| && AllHaveOwnKey(run, i)
    ensures !CanBeOrdered(EntryNodes(run, run))
  {
    var nodes := EntryNodes(run, run);
    forall j | 0 <= j < |nodes| && nodes[j].name == nodes[i].name
      ensures nodes[i].name in nodes[j].needs
    {
      var l :| l in run[j].links && SameName(l.parent, run[j].table.table);
      assert NamesTable(run, l.parent);
    }
    OwnNameBlocks(nodes, i);
  }

  /** The first table of a name got a key to that name. */
  lemma FlipLeavesOwnKeys(catalog: Catalog, s: JoinState, join: VirtualJoin)
    requires s.Valid() && LaterReferToOwnName(s.run) && Flips(catalog, s, join)
    ensures
      var v := JudgeJoin(catalog, s, join);
      v.child < |s.run| && AllHaveOwnKey(Turned(s, v).run, v.child)
  {
    var v := JudgeJoin(catalog, s, join);
    var after := Turned(s, v).run;
    assert v.link in after[v.child].links;
    LaterStillRefer(s.run, after);
    SamePlaces(s.run, after, join.right.table);
    forall j | 0 <= j < |after| && SameName(after[j].table.table, after[v.child].table.table)
      ensures HasOwnKey(after[j])
    {
      if j > v.child {
        assert SameName(after[v.child].table.table, after[j].table.table);
      }
    }
  }

  lemma CopiesDiffer(catalog: Catalog, roots: seq<QName>)
    requires AllKnown(catalog, roots) && DistinctRoots(roots)
    ensures DistinctRun(CopyEntries(catalog, roots))
    decreases |roots|
  {
    if roots != [] {
      var rest, last := roots[..|roots| - 1], roots[|roots| - 1];
      CopiesDiffer(catalog, rest);
      forall i | 0 <= i < |CopyEntries(catalog, rest)|
        ensures !SameName(last.table, CopyEntries(catalog, rest)[i].table.table)
      {
        assert CopyEntries(catalog, rest)[i].table in rest;
      }
    }
  }

  /** No two listed names are the same, whatever their case. */
  predicate DistinctRoots(roots: seq<QName>) {
    forall i, j | 0 <= i < j < |roots| :: !SameName(roots[i].table, roots[j].table)
  }

  lemma SameRoot(roots: seq<QName>, n: nat, k: nat)
    requires DistinctRoots(roots) && n < |roots| && k < |roots| && SameName(roots[n].table, roots[k].table)
    ensures n == k
  {
  }

  lemma CopyMeetsRoot(catalog: Catalog, roots: seq<QName>, i: nat, k: nat)
    requires AllKnown(catalog, roots) && DistinctRoots(roots) && i < |CopyEntries(catalog, roots)| && k < |roots|
    requires SameName(CopyEntries(catalog, roots)[i].table.table, roots[k].table)
    ensures NamesItself(catalog, roots[k])
  {
    var q := CopyEntries(catalog, roots)[i].table;
    var n :| 0 <= n < |roots| && roots[n] == q;
    SameRoot(roots, n, k);
  }

  lemma RootHasOwnKey(catalog: Catalog, roots: seq<QName>, k: nat)
    requires AllKnown(catalog, roots) && k < |roots| && NamesItself(catalog, roots[k])
    ensures HasOwnKey(RootEntries(catalog, roots)[k])
  {
    var keys := catalog[roots[k]].keys;
    var h := OwnNameKey(keys, roots[k].table);
    assert RootEntries(catalog, roots)[k].links[h] == LinkOf(keys[h]);
  }

  lemma OneInEach(a: seq<Entry>, b: seq<Entry>, i: nat, j: nat)
    requires DistinctRun(a) && DistinctRun(b) && i < j < |a + b|
    requires SameName((a + b)[i].table.table, (a + b)[j].table.table)
    ensures i < |a| <= j
  {
  }

  /** A copy is followed by its table, which references its own name. */
  lemma StartRefers(catalog: Catalog, roots: seq<QName>)
    requires AllKnown(catalog, roots) && DistinctRoots(roots)
    ensures LaterReferToOwnName(Start(catalog, roots).run)
  {
    var copies, entries := CopyEntries(catalog, roots), RootEntries(catalog, roots);
    var run := copies + entries;
    CopiesDiffer(catalog, roots);
    assert DistinctRun(entries);
    forall i: nat, j: nat | i < j < |run| && SameName(run[i].table.table, run[j].table.table)
      ensures HasOwnKey(run[j])
    {
      OneInEach(copies, entries, i, j);
      CopyMeetsRoot(catalog, roots, i, j - |copies|);
      RootHasOwnKey(catalog, roots, j - |copies|);
    }
  }

  /** Once a join was turned round, the sort does not end. */
  lemma {:induction false} FlippedNeverEnds(catalog: Catalog, s: JoinState, joins: seq<VirtualJoin>)
    requires s.Valid() && LaterReferToOwnName(s.run) && SomeFlip(catalog, s, joins)
    ensures
      var final := AfterJoins(catalog, s, joins).run;
      !CanBeOrdered(EntryNodes(final, final))
    decreases |joins|
  {
    var v := JudgeJoin(catalog, s, joins[0]);
    var next := Turned(s, v);
    LaterStillRefer(s.run, next.run);
    if Flips(catalog, s, joins[0]) {
      FlipLeavesOwnKeys(catalog, s, joins[0]);
      var final := AfterJoins(catalog, next, joins[1..]).run;
      AllStillHaveOwnKey(next.run, final, v.child);
      OwnKeysNeverEnd(final, v.child);
    } else {
      FlippedNeverEnds(catalog, next, joins[1..]);
    }
  }

  /** So with distinct names a join that the guard turns round keeps the sort
      from ending, self-referencing tables or not. */
  lemma TurnedJoinNeverEnds(catalog: Catalog, roots: seq<QName>, joins: seq<VirtualJoin>)
    requires AllKnown(catalog, roots) && DistinctRoots(roots) && SomeFlip(catalog, Start(catalog, roots), joins)
    ensures
      var final := AfterJoins(catalog, Start(catalog, roots), joins).run;
      !CanBeOrdered(EntryNodes(final, final))
  {
    StartRefers(catalog, roots);
    FlippedNeverEnds(catalog, Start(catalog, roots), joins);
  }

  // All references, listed or not.

  /** No key that was added closes a cycle: at its turn the parent does not lead
      to the child already. */
  ghost predicate Harmless(catalog: Catalog, s: JoinState, joins: seq<VirtualJoin>)
    requires s.Valid()
    decreases |joins|
  {
    joins == []
    || var v := JudgeJoin(catalog, s, joins[0]);
       v.Refused?
       || ((v.Attached? ==> !Reaches<QName>(s.graph, v.parent, s.run[v.child].table))
           && Harmless(catalog, Turned(s, v), joins[1..]))
  }

  lemma AttachedIsKnown(catalog: Catalog, s: JoinState, join: VirtualJoin)
    requires s.Valid() && JudgeJoin(catalog, s, join).Attached?
    ensures JudgeJoin(catalog, s, join).parent in catalog
  {
  }

  lemma {:induction false} CycleAmongAllStays(catalog: Catalog, s: JoinState, joins: seq<VirtualJoin>)
    requires s.Valid() && Acyclic<QName>(AfterJoins(catalog, s, joins).graph)
    ensures Acyclic<QName>(s.graph)
    decreases |joins|
  {
    if joins != [] && !JudgeJoin(catalog, s, joins[0]).Refused? {
      var next := Turned(s, JudgeJoin(catalog, s, joins[0]));
      CycleAmongAllStays(catalog, next, joins[1..]);
      AcyclicBefore<QName>(s.graph, next.graph);
    }
  }

  /** Virtual keys leave no cycle among all tables of the catalogue exactly when
      there was none and each, at its turn, closes none. */
  lemma {:induction false} VirtualKeysAcyclicIff(catalog: Catalog, s: JoinState, joins: seq<VirtualJoin>)
    requires s.Valid() && s.graph.Keys == catalog.Keys
    ensures Acyclic<QName>(AfterJoins(catalog, s, joins).graph)
       <==> Acyclic<QName>(s.graph) && Harmless(catalog, s, joins)
    decreases |joins|
  {
    if !Acyclic<QName>(s.graph) {
      if Acyclic<QName>(AfterJoins(catalog, s, joins).graph) {
        CycleAmongAllStays(catalog, s, joins);
      }
    } else if joins != [] && !JudgeJoin(catalog, s, joins[0]).Refused? {
      var v := JudgeJoin(catalog, s, joins[0]);
      if v.Attached? {
        AttachedIsKnown(catalog, s, joins[0]);
        AddEdgeAcyclic<QName>(s.graph, s.run[v.child].table, v.parent);
      }
      VirtualKeysAcyclicIff(catalog, Turned(s, v), joins[1..]);
    }
  }

  lemma RepeatIsCycle(graph: Refs<QName>, w: seq<QName>, i: nat, j: nat)
    requires IsWalk<QName>(graph, w) && i < j < |w| && w[i] == w[j]
    ensures !Acyclic<QName>(graph)
  {
    assert w[i + 1] in graph[w[i]];
    SubwalkReaches<QName>(graph, w, i + 1, j);
  }

  lemma NoCycleNoRepeat(graph: Refs<QName>, q: QName)
    requires Acyclic<QName>(graph) && UniqueNames<QName>(TableOf(graph))
    ensures !RepeatsFrom(graph, q)
  {
    if w: seq<QName> :| RepeatingWalk<QName>(TableOf(graph), graph, [], q, w) {
      var j: nat :| j < |w| && RepeatsAt<QName>(TableOf(graph), [], w, j);
      var i: nat :| i < j && TableOf(graph)[w[i]] == TableOf(graph)[w[j]];
      RepeatIsCycle(graph, w, i, j);
    }
  }

  /** Without a cycle, and with different names, the guard is silent: the key goes
      from the side the join calls child to the side it calls parent. */
  lemma SafeKeysAreNotFlipped(catalog: Catalog, s: JoinState, join: VirtualJoin)
    requires s.Valid() && Acyclic<QName>(s.graph) && UniqueNames<QName>(TableOf(s.graph))
    requires JudgeJoin(catalog, s, join).Attached?
    ensures
      var v := JudgeJoin(catalog, s, join);
      !Flips(catalog, s, join) && v.parent == QName(s.run[v.child].table.schema, join.left.table)
  {
    NoCycleNoRepeat(s.graph, QName(s.run[JudgeJoin(catalog, s, join).child].table.schema, join.left.table));
  }
}
