/** Exactly when a run with joins ends, as a condition on the catalogue, the list
    and the joins that a caller can check before the run. */
module JoinVerdicts {
  import opened Text
  import opened Fields
  import opened ReferenceGraph
  import opened RunOrder
  import opened TableSort
  import opened Loader
  import opened Loading
  import opened VirtualJoins
  import opened VirtualEdges
  import opened Pipeline
  import opened VirtualKeys
  import opened JoinSteps
  import opened JoinMirror
  import opened JoinCycles
  import opened JoinedRun

  // Exactly when the sort ends.

  /** The key references a listed table, the one its name says, or one outside. */
  ghost predicate LinkLeads(s: JoinState, outside: set<QName>, i: nat, k: nat)
    requires s.Valid() && i < |s.run| && k < |s.run[i].links|
  {
    && k < |s.graph[s.run[i].table]|
    && var j, q := EntryNamed(s.run, s.run[i].links[k].parent), s.graph[s.run[i].table][k];
       if j < |s.run| then s.run[j].table == q else q in outside
  }

  ghost predicate LinksLead(s: JoinState, outside: set<QName>)
    requires s.Valid()
  {
    && (forall i | 0 <= i < |s.run| :: |s.graph[s.run[i].table]| == |s.run[i].links|)
    && forall i, k {:trigger LinkLeads(s, outside, i, k)} | 0 <= i < |s.run| && 0 <= k < |s.run[i].links| ::
         LinkLeads(s, outside, i, k)
  }

  /** The tables outside reference each other only, share no name with a listed
      one, and lead into no loop of names. */
  ghost predicate KeptOutside(graph: Refs<QName>, run: seq<Entry>, outside: set<QName>) {
    && (forall q, p | q in outside && q in graph && p in graph && p in graph[q] :: p in outside)
    && (forall q, i | q in outside && 0 <= i < |run| :: q.table != run[i].table.table)
    && forall q <- outside :: !RepeatsFrom(graph, q)
  }

  /** The listed tables lead to listed tables, and to tables that lead to none. */
  ghost predicate Aligned(s: JoinState, outside: set<QName>) {
    s.Valid() && DistinctRun(s.run) && LinksLead(s, outside) && KeptOutside(s.graph, s.run, outside)
  }

  lemma TablesDiffer(run: seq<Entry>, i: nat, j: nat)
    requires DistinctRun(run) && i < |run| && j < |run| && run[i].table == run[j].table
    ensures i == j
  {
    EntryNamedAt(run, run[i].table.table, i);
    EntryNamedAt(run, run[i].table.table, j);
  }

  function PlainNames(run: seq<Entry>): (names: map<nat, string>)
    ensures forall i: nat :: i in names <==> i < |run|
  {
    map i: nat | i < |run| :: run[i].table.table
  }

  lemma PlainNamesDiffer(run: seq<Entry>)
    requires DistinctRun(run)
    ensures UniqueNames<nat>(PlainNames(run))
  {
    forall i, j | i in PlainNames(run) && j in PlainNames(run) && PlainNames(run)[i] == PlainNames(run)[j]
      ensures i == j
    {
      EntryNamedAt(run, run[i].table.table, i);
      EntryNamedAt(run, run[i].table.table, j);
    }
  }

  /** The places of the tables `v`. */
  ghost predicate PlacesOf(run: seq<Entry>, w: seq<nat>, v: seq<QName>) {
    |w| <= |v| && forall i | 0 <= i < |w| :: w[i] < |run| && v[i] == run[w[i]].table
  }

  lemma EdgeOfPlaces(s: JoinState, outside: set<QName>, i: nat, j: nat)
    requires s.Valid() && LinksLead(s, outside) && i < |s.run| && j in LinkGraph(s.run)[i]
    ensures j < |s.run| && s.run[j].table in s.graph[s.run[i].table]
  {
    var links, targets := s.run[i].links, LinkGraph(s.run)[i];
    var n :| 0 <= n < |targets| && targets[n] == j;
    var l :| l in links && j == EntryNamed(s.run, l.parent);
    var k :| 0 <= k < |links| && links[k] == l;
    assert LinkLeads(s, outside, i, k);
  }

  lemma EdgeOfTables(s: JoinState, outside: set<QName>, i: nat, q: QName) returns (j: nat)
    requires s.Valid() && LinksLead(s, outside) && i < |s.run| && q in s.graph[s.run[i].table]
    ensures if j < |s.run| then j in LinkGraph(s.run)[i] && s.run[j].table == q else q in outside
  {
    var k :| 0 <= k < |s.graph[s.run[i].table]| && s.graph[s.run[i].table][k] == q;
    assert LinkLeads(s, outside, i, k);
    var l := s.run[i].links[k];
    j := EntryNamed(s.run, l.parent);
    if j < |s.run| {
      LinkIsEdge(s.run, i, l);
    }
  }

  lemma WalkOfPlaces(s: JoinState, outside: set<QName>, w: seq<nat>) returns (v: seq<QName>)
    requires s.Valid() && LinksLead(s, outside) && IsWalk<nat>(LinkGraph(s.run), w)
    ensures IsWalk<QName>(s.graph, v) && |v| == |w| && PlacesOf(s.run, w, v)
  {
    v := seq(|w|, i requires 0 <= i < |w| => s.run[w[i]].table);
    forall i | 0 < i < |w|
      ensures v[i] in s.graph[v[i - 1]]
    {
      EdgeOfPlaces(s, outside, w[i - 1], w[i]);
    }
  }

  lemma WalkSnoc(graph: Refs<nat>, w: seq<nat>, j: nat)
    requires IsWalk<nat>(graph, w) && w != [] && j in graph && j in graph[w[|w| - 1]]
    ensures IsWalk<nat>(graph, w + [j])
  {
    assert forall i | 0 <= i < |w| :: (w + [j])[i] == w[i];
  }

  /** The walk as far as it stays among listed tables; from there on it is outside. */
  ghost predicate Follows(run: seq<Entry>, outside: set<QName>, v: seq<QName>, w: seq<nat>, n: nat) {
    && 0 < |w| <= n <= |v| && IsWalk<nat>(LinkGraph(run), w) && PlacesOf(run, w, v)
    && forall i | |w| <= i < n :: v[i] in outside
  }

  lemma FollowsInside(run: seq<Entry>, outside: set<QName>, v: seq<QName>, w: seq<nat>, n: nat, j: nat)
    requires Follows(run, outside, v, w, n) && |w| == n < |v| && j < |run|
    requires j in LinkGraph(run)[w[n - 1]] && run[j].table == v[n]
    ensures Follows(run, outside, v, w + [j], n + 1)
  {
    WalkSnoc(LinkGraph(run), w, j);
  }

  lemma FollowsOutside(run: seq<Entry>, outside: set<QName>, v: seq<QName>, w: seq<nat>, n: nat)
    requires Follows(run, outside, v, w, n) && n < |v| && v[n] in outside
    ensures Follows(run, outside, v, w, n + 1)
  {
  }

  lemma FollowsOneMore(s: JoinState, outside: set<QName>, v: seq<QName>, w: seq<nat>, n: nat) returns (more: seq<nat>)
    requires s.Valid() && LinksLead(s, outside) && KeptOutside(s.graph, s.run, outside) && IsWalk<QName>(s.graph, v)
    requires Follows(s.run, outside, v, w, n) && n < |v|
    ensures Follows(s.run, outside, v, more, n + 1) && more[0] == w[0]
  {
    more := w;
    assert v[n] in s.graph[v[n - 1]];
    if |w| == n {
      var j := EdgeOfTables(s, outside, w[n - 1], v[n]);
      if j < |s.run| {
        FollowsInside(s.run, outside, v, w, n, j);
        more := w + [j];
      } else {
        FollowsOutside(s.run, outside, v, w, n);
      }
    } else {
      assert v[n - 1] in outside;
      FollowsOutside(s.run, outside, v, w, n);
    }
  }

  lemma {:induction false} WalkOfTables(s: JoinState, outside: set<QName>, v: seq<QName>, j: nat, n: nat)
    returns (w: seq<nat>)
    requires s.Valid() && LinksLead(s, outside) && KeptOutside(s.graph, s.run, outside) && IsWalk<QName>(s.graph, v)
    requires 0 < n <= |v| && j < |s.run| && v[0] == s.run[j].table
    ensures Follows(s.run, outside, v, w, n) && w[0] == j
  {
    if n == 1 {
      w := [j];
    } else {
      var before := WalkOfTables(s, outside, v, j, n - 1);
      w := FollowsOneMore(s, outside, v, before, n - 1);
    }
  }

  ghost predicate PlaceTwice(w: seq<nat>) {
    exists a, b | 0 <= a < b < |w| :: w[a] == w[b]
  }

  lemma RepeatIsTwice(run: seq<Entry>, w: seq<nat>)
    requires DistinctRun(run) && forall i | 0 <= i < |w| :: w[i] < |run|
    ensures PlaceTwice(w) <==> exists b: nat | b < |w| :: RepeatsAt<nat>(PlainNames(run), [], w, b)
  {
    var names := PlainNames(run);
    PlainNamesDiffer(run);
    if b: nat :| b < |w| && RepeatsAt<nat>(names, [], w, b) {
      var a: nat :| a < b && names[w[a]] == names[w[b]];
      assert w[a] == w[b];
    }
    if a, b :| 0 <= a < b < |w| && w[a] == w[b] {
      assert names[w[a]] == names[w[b]];
      assert RepeatsAt<nat>(names, [], w, b);
    }
  }

  ghost predicate WalksTwice(run: seq<Entry>, j: nat, w: seq<nat>) {
    IsWalk<nat>(LinkGraph(run), w) && w != [] && w[0] == j && PlaceTwice(w)
  }

  lemma LoopIfPlaceTwice(run: seq<Entry>, j: nat, w: seq<nat>)
    requires DistinctRun(run) && j < |run| && WalksTwice(run, j, w)
    ensures CycleReachable<nat>(LinkGraph(run), j)
  {
    RepeatIsTwice(run, w);
    PlainNamesDiffer(run);
    assert RepeatingWalk<nat>(PlainNames(run), LinkGraph(run), [], j, w);
    LoopingIffNameRepeats<nat>(PlainNames(run), LinkGraph(run), j);
    LoopingIffCycleReachable<nat>(PlainNames(run), LinkGraph(run), j);
  }

  lemma PlaceTwiceIfLoop(run: seq<Entry>, j: nat) returns (w: seq<nat>)
    requires DistinctRun(run) && j < |run| && CycleReachable<nat>(LinkGraph(run), j)
    ensures WalksTwice(run, j, w)
  {
    PlainNamesDiffer(run);
    LoopingIffCycleReachable<nat>(PlainNames(run), LinkGraph(run), j);
    w := LoopingHasWalk<nat>(PlainNames(run), LinkGraph(run), [], j);
    RepeatIsTwice(run, w);
  }

  lemma OutsideDoesNotRepeat(graph: Refs<QName>, v: seq<QName>, n: nat, a: nat, b: nat)
    requires IsWalk<QName>(graph, v) && n <= a < b < |v| && v[a].table == v[b].table
    ensures RepeatsFrom(graph, v[n])
  {
    var u := v[n..];
    RepeatsIffTableTwice(graph, v[n]);
    assert u[a - n].table == u[b - n].table;
    assert forall i | 0 <= i < |u| :: u[i] == v[n + i];
    assert IsWalk<QName>(graph, u) && u[0] == v[n] && TableTwice(u);
  }

  /** A name that repeats on a walk from a listed table repeats among listed tables. */
  lemma TwiceAmongListed(s: JoinState, outside: set<QName>, v: seq<QName>, w: seq<nat>)
    requires Aligned(s, outside) && IsWalk<QName>(s.graph, v) && TableTwice(v)
    requires Follows(s.run, outside, v, w, |v|)
    ensures PlaceTwice(w)
  {
    var a, b :| 0 <= a < b < |v| && v[a].table == v[b].table;
    if a >= |w| {
      OutsideDoesNotRepeat(s.graph, v, |w|, a, b);
    } else if b < |w| {
      EntryNamedAt(s.run, v[a].table, w[a]);
      EntryNamedAt(s.run, v[a].table, w[b]);
    }
  }

  /** On such a list the guard fires exactly if the parent leads into a cycle of
      listed tables. */
  lemma GuardIffCycle(s: JoinState, outside: set<QName>, j: nat)
    requires Aligned(s, outside) && j < |s.run|
    ensures RepeatsFrom(s.graph, s.run[j].table) <==> CycleReachable<nat>(LinkGraph(s.run), j)
  {
    RepeatsIffTableTwice(s.graph, s.run[j].table);
    if CycleReachable<nat>(LinkGraph(s.run), j) {
      var w := PlaceTwiceIfLoop(s.run, j);
      var v := WalkOfPlaces(s, outside, w);
      TablesTwice(s.run, w, v);
    }
    if v: seq<QName> :| IsWalk<QName>(s.graph, v) && v != [] && v[0] == s.run[j].table && TableTwice(v) {
      var w := WalkOfTables(s, outside, v, j, |v|);
      TwiceAmongListed(s, outside, v, w);
      LoopIfPlaceTwice(s.run, j, w);
    }
  }

  lemma TablesTwice(run: seq<Entry>, w: seq<nat>, v: seq<QName>)
    requires PlacesOf(run, w, v) && PlaceTwice(w)
    ensures TableTwice(v)
  {
    var a, b :| 0 <= a < b < |w| && w[a] == w[b];
    assert v[a].table == v[b].table;
  }

  /** The join's parent is listed. */
  predicate ParentListed(run: seq<Entry>, join: VirtualJoin) {
    var i := EntryNamed(run, join.right.table);
    i < |run| ==>
      exists j | 0 <= j < |run| :: run[j].table == QName(run[i].table.schema, join.left.table)
  }

  /** The join's child is listed, and no key says what the join says. */
  predicate Applies(run: seq<Entry>, join: VirtualJoin) {
    !CoveredBy(run, join) && EntryNamed(run, join.right.table) < |run|
  }

  /** The parent the join asks for lacks a column. */
  predicate Lacks(catalog: Catalog, run: seq<Entry>, join: VirtualJoin)
    requires Applies(run, join)
  {
    var parent := QName(run[EntryNamed(run, join.right.table)].table.schema, join.left.table);
    parent !in catalog || !HasColumns(catalog[parent].fields, join.left.columns)
  }

  /** The join as a key from the side it calls child to the side it calls parent. */
  function AsWritten(run: seq<Entry>, join: VirtualJoin): (after: seq<Entry>)
    ensures Longer(run, after)
  {
    if !Applies(run, join) then run
    else
      var i, link := EntryNamed(run, join.right.table), Link(join.left.table, join.right.columns, join.left.columns);
      run[i := Entry(run[i].table, run[i].links + [link])]
  }

  /** Every join that applies becomes a key, as written, up to the first whose
      parent lacks a column: nothing is asked of the graph. */
  function Unguarded(catalog: Catalog, run: seq<Entry>, joins: seq<VirtualJoin>): (after: seq<Entry>)
    ensures Longer(run, after)
    decreases |joins|
  {
    if joins == [] || (Applies(run, joins[0]) && Lacks(catalog, run, joins[0])) then run
    else Unguarded(catalog, AsWritten(run, joins[0]), joins[1..])
  }

  /** Nothing behind the listed tables is broken. */
  ghost predicate ListedLoadable(catalog: Catalog, run: seq<Entry>) {
    forall i | 0 <= i < |run| :: !Unloadable(catalog, run[i].table)
  }

  /** A table outside references what it did. */
  lemma OutsideUnchanged(graph: Refs<QName>, run: seq<Entry>, outside: set<QName>, child: QName, parent: QName,
                         q: QName)
    requires KeptOutside(graph, run, outside) && child in graph && q in outside
    requires exists i | 0 <= i < |run| :: run[i].table == child
    ensures !RepeatsFrom(AddEdge<QName>(graph, child, parent), q)
  {
    var more := AddEdge<QName>(graph, child, parent);
    RepeatsIffTableTwice(more, q);
    RepeatsIffTableTwice(graph, q);
    if v: seq<QName> :| IsWalk(more, v) && v != [] && v[0] == q && TableTwice(v) {
      ClosedSetHoldsReachable<QName>(more, outside, v);
      forall i | 0 < i < |v|
        ensures v[i] in graph[v[i - 1]]
      {
        assert v[i - 1] in outside;
      }
      assert IsWalk(graph, v);
    }
  }

  lemma StillOutside(graph: Refs<QName>, run: seq<Entry>, outside: set<QName>, i: nat, parent: QName,
                     after: seq<Entry>)
    requires KeptOutside(graph, run, outside) && i < |run| && run[i].table in graph && Longer(run, after)
    ensures KeptOutside(AddEdge<QName>(graph, run[i].table, parent), after, outside)
  {
    forall q <- outside
      ensures !RepeatsFrom(AddEdge<QName>(graph, run[i].table, parent), q)
    {
      OutsideUnchanged(graph, run, outside, run[i].table, parent, q);
    }
    forall q, p | q in outside && q in graph && p in graph && p in AddEdge<QName>(graph, run[i].table, parent)[q]
      ensures p in outside
    {
      assert q.table != run[i].table.table;
    }
  }

  /** A key between listed tables keeps the list as it should be. */
  lemma AlignedTurn(s: JoinState, outside: set<QName>, v: Verdict, j: nat)
    requires Aligned(s, outside) && v.Attached? && v.child < |s.run| && j < |s.run|
    requires s.run[j].table == v.parent && v.link.parent == v.parent.table
    ensures Aligned(Turned(s, v), outside)
  {
    StillOutside(s.graph, s.run, outside, v.child, v.parent, Turned(s, v).run);
    LinksStillLead(s, outside, v, j);
  }

  lemma LinkStillLeads(s: JoinState, outside: set<QName>, v: Verdict, j: nat, i: nat, k: nat)
    requires s.Valid() && DistinctRun(s.run) && LinksLead(s, outside)
    requires v.Attached? && v.child < |s.run| && j < |s.run|
    requires s.run[j].table == v.parent && v.link.parent == v.parent.table
    requires i < |s.run| && k < |Turned(s, v).run[i].links|
    ensures LinkLeads(Turned(s, v), outside, i, k)
  {
    var after := Turned(s, v);
    if s.run[i].table == s.run[v.child].table {
      TablesDiffer(s.run, i, v.child);
    }
    SamePlaces(s.run, after.run, after.run[i].links[k].parent);
    if k < |s.run[i].links| {
      assert LinkLeads(s, outside, i, k);
    } else {
      EntryNamedAt(s.run, v.link.parent, j);
    }
  }

  lemma LinksStillLead(s: JoinState, outside: set<QName>, v: Verdict, j: nat)
    requires s.Valid() && DistinctRun(s.run) && LinksLead(s, outside)
    requires v.Attached? && v.child < |s.run| && j < |s.run|
    requires s.run[j].table == v.parent && v.link.parent == v.parent.table
    ensures LinksLead(Turned(s, v), outside)
  {
    var after := Turned(s, v);
    forall i: nat, k: nat | i < |after.run| && k < |after.run[i].links|
      ensures LinkLeads(after, outside, i, k)
    {
      LinkStillLeads(s, outside, v, j, i, k);
    }
    forall i: nat | i < |after.run|
      ensures |after.graph[after.run[i].table]| == |after.run[i].links|
    {
      if s.run[i].table == s.run[v.child].table {
        TablesDiffer(s.run, i, v.child);
      }
    }
  }

  ghost predicate ParentsListed(run: seq<Entry>, joins: seq<VirtualJoin>) {
    forall i | 0 <= i < |joins| :: ParentListed(run, joins[i])
  }

  lemma StillListed(before: seq<Entry>, after: seq<Entry>, joins: seq<VirtualJoin>)
    requires Longer(before, after) && ParentsListed(before, joins)
    ensures ParentsListed(after, joins)
  {
    forall k | 0 <= k < |joins|
      ensures ParentListed(after, joins[k])
    {
      var join := joins[k];
      SamePlaces(before, after, join.right.table);
      assert ParentListed(before, join);
      var i := EntryNamed(before, join.right.table);
      if i < |before| {
        var j :| 0 <= j < |before| && before[j].table == QName(before[i].table.schema, join.left.table);
        assert after[j].table == QName(after[i].table.schema, join.left.table);
      }
    }
  }

  lemma UnguardedCycleStays(catalog: Catalog, run: seq<Entry>, joins: seq<VirtualJoin>)
    requires !Acyclic<nat>(LinkGraph(run))
    ensures !Acyclic<nat>(LinkGraph(Unguarded(catalog, run, joins)))
  {
    var after := Unguarded(catalog, run, joins);
    LongerKeeps(run, after);
    if Acyclic<nat>(LinkGraph(after)) {
      AcyclicBefore<nat>(LinkGraph(run), LinkGraph(after));
    }
  }

  /** Where the listed parent of a join stands. */
  lemma ParentPlace(run: seq<Entry>, join: VirtualJoin) returns (j: nat)
    requires ParentListed(run, join) && EntryNamed(run, join.right.table) < |run|
    ensures j < |run|
    ensures run[j].table == QName(run[EntryNamed(run, join.right.table)].table.schema, join.left.table)
  {
    j :| 0 <= j < |run| && run[j].table == QName(run[EntryNamed(run, join.right.table)].table.schema, join.left.table);
  }

  lemma SilentGuard(s: JoinState, outside: set<QName>, j: nat)
    requires Aligned(s, outside) && Acyclic<nat>(LinkGraph(s.run)) && j < |s.run|
    ensures !RepeatsFrom(s.graph, s.run[j].table)
  {
    GuardIffCycle(s, outside, j);
  }

  /** What becomes of a join that applies while the guard is silent. */
  lemma VerdictAsWritten(catalog: Catalog, s: JoinState, join: VirtualJoin)
    requires s.Valid() && Applies(s.run, join)
    requires
      var parent := QName(s.run[EntryNamed(s.run, join.right.table)].table.schema, join.left.table);
      !Unloadable(catalog, parent) && !RepeatsFrom(s.graph, parent)
    ensures
      var i := EntryNamed(s.run, join.right.table);
      JudgeJoin(catalog, s, join)
      == if Lacks(catalog, s.run, join) then Refused else Toward(i, s.run[i].table.schema, join.left, join.right)
  {
  }

  /** As long as there is no cycle, a turn is the one without a guard. */
  lemma UnguardedTurn(catalog: Catalog, s: JoinState, outside: set<QName>, join: VirtualJoin)
    requires Aligned(s, outside) && ListedLoadable(catalog, s.run) && ParentListed(s.run, join)
    requires Acyclic<nat>(LinkGraph(s.run))
    ensures JudgeJoin(catalog, s, join).Refused? <==> Applies(s.run, join) && Lacks(catalog, s.run, join)
    ensures !JudgeJoin(catalog, s, join).Refused? ==>
      var after := Turned(s, JudgeJoin(catalog, s, join));
      after.run == AsWritten(s.run, join) && Aligned(after, outside)
  {
    if Applies(s.run, join) {
      var j := ParentPlace(s.run, join);
      SilentGuard(s, outside, j);
      VerdictAsWritten(catalog, s, join);
      if !Lacks(catalog, s.run, join) {
        AlignedTurn(s, outside, JudgeJoin(catalog, s, join), j);
      }
    } else {
      NothingToDo(catalog, s, join);
    }
  }

  lemma NothingToDo(catalog: Catalog, s: JoinState, join: VirtualJoin)
    requires s.Valid() && !Applies(s.run, join)
    ensures JudgeJoin(catalog, s, join).AlreadyCovered? || JudgeJoin(catalog, s, join).ChildNotListed?
  {
  }

  lemma BothStayCyclic(catalog: Catalog, s: JoinState, joins: seq<VirtualJoin>)
    requires s.Valid() && !Acyclic<nat>(LinkGraph(s.run))
    ensures SameOrBothCyclic(AfterJoins(catalog, s, joins).run, Unguarded(catalog, s.run, joins))
  {
    CycleStays(catalog, s, joins);
    UnguardedCycleStays(catalog, s.run, joins);
  }

  ghost predicate SameOrBothCyclic(a: seq<Entry>, b: seq<Entry>) {
    a == b || (!Acyclic<nat>(LinkGraph(a)) && !Acyclic<nat>(LinkGraph(b)))
  }

  /** The guard makes no difference but among lists with a cycle: where it fires
      there is one already. */
  lemma {:induction false} GuardDecidesNothing(catalog: Catalog, s: JoinState, outside: set<QName>,
                                               joins: seq<VirtualJoin>)
    requires Aligned(s, outside) && ListedLoadable(catalog, s.run) && ParentsListed(s.run, joins)
    ensures SameOrBothCyclic(AfterJoins(catalog, s, joins).run, Unguarded(catalog, s.run, joins))
    decreases |joins|
  {
    if joins == [] {
    } else if !Acyclic<nat>(LinkGraph(s.run)) {
      BothStayCyclic(catalog, s, joins);
    } else {
      UnguardedTurn(catalog, s, outside, joins[0]);
      if !JudgeJoin(catalog, s, joins[0]).Refused? {
        var next, rest := Turned(s, JudgeJoin(catalog, s, joins[0])), joins[1..];
        assert ParentsListed(s.run, rest);
        StillListed(s.run, next.run, rest);
        GuardDecidesNothing(catalog, next, outside, rest);
      }
    }
  }

  // The same, for the list the run starts with.

  /** An unlisted table that listed ones lead to references no listed table. */
  ghost predicate NoWayBack(catalog: Catalog, roots: seq<QName>) {
    forall q, p | LedTo(catalog, roots, q) && q !in roots && q in catalog && p in CatalogRefs(catalog)[q] :: p !in roots
  }

  ghost function Outside(catalog: Catalog, roots: seq<QName>): set<QName> {
    set q | q in catalog && q !in roots && LedTo(catalog, roots, q)
  }

  /** What the list leads to is a known table. */
  lemma LedToReference(catalog: Catalog, roots: seq<QName>, q: QName, p: QName)
    requires AllLoadable(catalog, roots) && LedTo(catalog, roots, q) && q in catalog
    requires p in CatalogRefs(catalog)[q]
    ensures p in catalog && LedTo(catalog, roots, p)
  {
    var refs := CatalogRefs(catalog);
    var r :| r in roots && Reaches<QName>(refs, r, q);
    var i :| 0 <= i < |catalog[q].keys| && catalog[q].keys[i].parent == p;
    var n :| 0 <= n < |roots| && roots[n] == r;
    assert !HasBrokenKey(catalog, q);
    assert Resolvable(catalog, catalog[q].keys[i]);
    ReachesRefl<QName>(refs, p);
    ReachesStep<QName>(refs, q, p, p);
    ReachesTrans<QName>(refs, r, q, p);
  }

  lemma RootIsLedTo(catalog: Catalog, roots: seq<QName>, i: nat)
    requires i < |roots| && roots[i] in catalog
    ensures LedTo(catalog, roots, roots[i])
  {
    ReachesRefl<QName>(CatalogRefs(catalog), roots[i]);
  }

  lemma JoinedWalk(graph: Refs<QName>, u: seq<QName>, v: seq<QName>)
    requires IsWalk<QName>(graph, u) && IsWalk<QName>(graph, v) && u != [] && v != [] && u[|u| - 1] == v[0]
    requires TableTwice(v)
    ensures IsWalk<QName>(graph, u[..|u| - 1] + v) && TableTwice(u[..|u| - 1] + v)
  {
    var w, n := u[..|u| - 1] + v, |u| - 1;
    var i, j :| 0 <= i < j < |v| && v[i].table == v[j].table;
    assert w[n + i].table == w[n + j].table;
  }

  lemma RepeatsBehind(graph: Refs<QName>, a: QName, b: QName)
    requires Reaches<QName>(graph, a, b) && RepeatsFrom(graph, b)
    ensures RepeatsFrom(graph, a)
  {
    var u: seq<QName> :| Connects<QName>(graph, a, b, u);
    RepeatsIffTableTwice(graph, b);
    RepeatsIffTableTwice(graph, a);
    var v: seq<QName> :| IsWalk<QName>(graph, v) && v != [] && v[0] == b && TableTwice(v);
    JoinedWalk(graph, u, v);
    assert (u[..|u| - 1] + v)[0] == a;
  }

  /** The check has seen that nothing behind the list loops. */
  lemma OutsideIsCalm(catalog: Catalog, roots: seq<QName>, q: QName)
    requires AllAdmitted(catalog, roots) && (forall i | 0 <= i < |roots| :: !NamesItself(catalog, roots[i]))
    requires LedTo(catalog, roots, q) && q !in roots
    ensures !RepeatsFrom(CatalogRefs(catalog), q)
  {
    var refs := CatalogRefs(catalog);
    var i :| 0 <= i < |roots| && Reaches<QName>(refs, roots[i], q);
    var w: seq<QName> :| Connects<QName>(refs, roots[i], q, w);
    var k :| 0 <= k < |refs[roots[i]]| && refs[roots[i]][k] == w[1];
    SubwalkReaches<QName>(refs, w, 1, |w| - 1);
    assert Admitted(catalog, roots[i]) && !RepeatsFrom(refs, catalog[roots[i]].keys[k].parent);
    if RepeatsFrom(refs, q) {
      RepeatsBehind(refs, w[1], q);
    }
  }

  /** What the start asks of catalogue and list. */
  ghost predicate Plain(catalog: Catalog, roots: seq<QName>) {
    && AllLoadable(catalog, roots) && AllAdmitted(catalog, roots) && DistinctlyNamed(catalog, roots)
    && (forall i, j | 0 <= i < j < |roots| :: roots[i] != roots[j])
    && forall i | 0 <= i < |roots| :: !NamesItself(catalog, roots[i])
  }

  lemma NamesDiffer(catalog: Catalog, roots: seq<QName>, p: QName, q: QName)
    requires DistinctlyNamed(catalog, roots) && LedTo(catalog, roots, p) && LedTo(catalog, roots, q) && p != q
    ensures !SameName(p.table, q.table)
  {
  }

  lemma OutsideIsKept(catalog: Catalog, roots: seq<QName>)
    requires Plain(catalog, roots) && NoWayBack(catalog, roots)
    ensures KeptOutside(CatalogRefs(catalog), RootEntries(catalog, roots), Outside(catalog, roots))
  {
    forall q, p | q in Outside(catalog, roots) && p in catalog && p in CatalogRefs(catalog)[q]
      ensures p in Outside(catalog, roots)
    {
      LedToReference(catalog, roots, q, p);
    }
    forall q, i | q in Outside(catalog, roots) && 0 <= i < |roots|
      ensures q.table != roots[i].table
    {
      RootIsLedTo(catalog, roots, i);
      NamesDiffer(catalog, roots, q, roots[i]);
    }
    forall q <- Outside(catalog, roots)
      ensures !RepeatsFrom(CatalogRefs(catalog), q)
    {
      OutsideIsCalm(catalog, roots, q);
    }
  }

  lemma RootsDiffer(catalog: Catalog, roots: seq<QName>)
    requires Plain(catalog, roots)
    ensures DistinctRun(RootEntries(catalog, roots))
  {
    forall i, j | 0 <= i < j < |roots|
      ensures !SameName(roots[i].table, roots[j].table)
    {
      RootIsLedTo(catalog, roots, i);
      RootIsLedTo(catalog, roots, j);
      NamesDiffer(catalog, roots, roots[i], roots[j]);
    }
  }

  lemma RootLinkLeads(catalog: Catalog, roots: seq<QName>, i: nat, k: nat)
    requires Plain(catalog, roots) && DistinctRun(RootEntries(catalog, roots))
    requires i < |roots| && k < |catalog[roots[i]].keys|
    ensures
      var q := catalog[roots[i]].keys[k].parent;
      var j := EntryNamed(RootEntries(catalog, roots), q.table);
      if j < |roots| then roots[j] == q else q in Outside(catalog, roots)
  {
    var run, q := RootEntries(catalog, roots), catalog[roots[i]].keys[k].parent;
    RootIsLedTo(catalog, roots, i);
    assert CatalogRefs(catalog)[roots[i]][k] == q;
    LedToReference(catalog, roots, roots[i], q);
    if n :| 0 <= n < |roots| && roots[n] == q {
      EntryNamedAt(run, q.table, n);
    }
    var j := EntryNamed(run, q.table);
    if j < |roots| {
      RootIsLedTo(catalog, roots, j);
      assert SameName(roots[j].table, q.table);
    }
  }

  lemma {:induction false} NoCopies(catalog: Catalog, roots: seq<QName>)
    requires AllKnown(catalog, roots) && forall i | 0 <= i < |roots| :: !NamesItself(catalog, roots[i])
    ensures CopyEntries(catalog, roots) == []
  {
    if roots != [] {
      NoCopies(catalog, roots[..|roots| - 1]);
    }
  }

  lemma NotRedirected(catalog: Catalog, roots: seq<QName>, q: QName)
    requires AllKnown(catalog, roots) && q in catalog && forall i | 0 <= i < |roots| :: !NamesItself(catalog, roots[i])
    ensures CheckedRefs(catalog, roots)[q] == CatalogRefs(catalog)[q]
  {
    if q in roots {
      var i :| 0 <= i < |roots| && roots[i] == q;
    }
  }

  /** Without self-references the check moves nothing and copies nothing. */
  lemma StartIsCatalog(catalog: Catalog, roots: seq<QName>)
    requires AllKnown(catalog, roots) && forall i | 0 <= i < |roots| :: !NamesItself(catalog, roots[i])
    ensures Start(catalog, roots) == JoinState(CatalogRefs(catalog), RootEntries(catalog, roots))
  {
    NoCopies(catalog, roots);
    assert [] + RootEntries(catalog, roots) == RootEntries(catalog, roots);
    forall q <- catalog
      ensures CheckedRefs(catalog, roots)[q] == CatalogRefs(catalog)[q]
    {
      NotRedirected(catalog, roots, q);
    }
    SameRefs<QName>(CheckedRefs(catalog, roots), CatalogRefs(catalog));
  }

  lemma RootLinksLead(catalog: Catalog, roots: seq<QName>)
    requires Plain(catalog, roots) && DistinctRun(RootEntries(catalog, roots))
    ensures LinksLead(JoinState(CatalogRefs(catalog), RootEntries(catalog, roots)), Outside(catalog, roots))
  {
    var s := JoinState(CatalogRefs(catalog), RootEntries(catalog, roots));
    forall i: nat, k: nat | i < |s.run| && k < |s.run[i].links|
      ensures LinkLeads(s, Outside(catalog, roots), i, k)
    {
      RootLinkLeads(catalog, roots, i, k);
      assert s.run[i].links[k] == LinkOf(catalog[roots[i]].keys[k]);
      assert s.graph[roots[i]][k] == catalog[roots[i]].keys[k].parent;
    }
  }

  lemma StartIsAligned(catalog: Catalog, roots: seq<QName>)
    requires Plain(catalog, roots) && NoWayBack(catalog, roots)
    ensures Aligned(Start(catalog, roots), Outside(catalog, roots))
    ensures Start(catalog, roots).run == RootEntries(catalog, roots)
  {
    StartIsCatalog(catalog, roots);
    RootsDiffer(catalog, roots);
    OutsideIsKept(catalog, roots);
    RootLinksLead(catalog, roots);
  }

  lemma ListedAreLoadable(catalog: Catalog, roots: seq<QName>)
    requires AllLoadable(catalog, roots) && AllKnown(catalog, roots)
    ensures ListedLoadable(catalog, RootEntries(catalog, roots))
  {
  }

  /** The caller's condition. All is loadable and passes the check; names are
      distinct, nothing listed references itself, no unlisted table leads back to the list, and the joins
      ask for listed parents. Then the sort ends exactly if the keys of the
      catalogue and the joins, taken as written, form no cycle among the listed tables. */
  lemma SortEndsIff(catalog: Catalog, roots: seq<QName>, joins: seq<VirtualJoin>)
    requires Plain(catalog, roots) && NoWayBack(catalog, roots)
    requires ParentsListed(RootEntries(catalog, roots), joins)
    ensures
      var final := AfterJoins(catalog, Start(catalog, roots), joins).run;
      CanBeOrdered(EntryNodes(final, final))
      <==> Acyclic<nat>(LinkGraph(Unguarded(catalog, RootEntries(catalog, roots), joins)))
    ensures
      var want := Unguarded(catalog, RootEntries(catalog, roots), joins);
      Acyclic<nat>(LinkGraph(want)) ==> AfterJoins(catalog, Start(catalog, roots), joins).run == want
  {
    var start := Start(catalog, roots);
    StartIsAligned(catalog, roots);
    ListedAreLoadable(catalog, roots);
    GuardDecidesNothing(catalog, start, Outside(catalog, roots), joins);
    SameTables(catalog, start, joins);
    OrderedIffNoCycle(AfterJoins(catalog, start, joins).run);
  }

  /** So what the program comes to, guard and all, is what the joins say as they
      are written: it ends exactly if these keys form no cycle, and then with the listed tables, each
      with these keys, parents first. */
  lemma RunEndsIff(outcome: SortOutcome, catalog: Catalog, roots: seq<QName>, joins: seq<VirtualJoin>)
    requires Plain(catalog, roots) && NoWayBack(catalog, roots)
    requires ParentsListed(RootEntries(catalog, roots), joins)
    requires SortsAs(outcome, AfterJoins(catalog, Start(catalog, roots), joins).run)
    ensures
      var want := Unguarded(catalog, RootEntries(catalog, roots), joins);
      && (outcome.Sorted? <==> Acyclic<nat>(LinkGraph(want)))
      && (outcome.Sorted? ==>
            && multiset(EntriesOf(outcome.order)) == multiset(want)
            && DepsFirst(EntryNodes(EntriesOf(outcome.order), want)))
  {
    SortEndsIff(catalog, roots, joins);
  }
}
