/** Catalogues and joins taken through the whole preparation: a join that closes a
    circle, and one that the guard turns round for nothing. */
module JoinExamples {
  import opened Text
  import opened Fields
  import opened ReferenceGraph
  import opened RunOrder
  import opened TableSort
  import opened Loader
  import opened Loading
  import opened Pipeline
  import opened RunVerdicts
  import opened VirtualJoins
  import opened JoinSteps
  import opened JoinMirror
  import opened JoinCycles
  import opened JoinVerdicts
  import opened JoinedRun

  // One join against one key.

  /** Two listed tables, the second referencing the first. */
  ghost predicate Pair(run: seq<Entry>, link: Link) {
    && |run| == 2 && !SameName(run[0].table.table, run[1].table.table) && SameName(link.parent, run[0].table.table)
    && run[0].links == [] && run[1].links == [link]
  }

  /** A join for the opposite direction that the key does not cover. */
  lemma OppositeApplies(run: seq<Entry>, link: Link, join: VirtualJoin)
    requires Pair(run, link) && SameName(run[0].table.table, join.right.table)
    requires SameName(run[1].table.table, join.left.table) && !IsSliceSimilar(link.columns, join.left.columns)
    ensures DistinctRun(run) && EntryNamed(run, join.right.table) == 0 && EntryNamed(run, join.left.table) == 1
    ensures !CoveredBy(run, join) && Reaches<nat>(LinkGraph(run), 1, 0)
  {
    EntryNamedAt(run, join.right.table, 0);
    EntryNamedAt(run, join.left.table, 1);
    EntryNamedAt(run, link.parent, 0);
    LinkIsEdge(run, 1, link);
    assert Connects<nat>(LinkGraph(run), 1, 0, [1, 0]);
  }

  /** The tables cannot be ordered once the joins are dealt with. */
  ghost predicate NeverSorts(catalog: Catalog, roots: seq<QName>, joins: seq<VirtualJoin>) {
    AllKnown(catalog, roots) &&
    var final := AfterJoins(catalog, Start(catalog, roots), joins).run;
    !CanBeOrdered(EntryNodes(final, final))
  }

  /** Such a join closes a circle, unless its columns are unknown. */
  lemma OppositeNeverEnds(catalog: Catalog, s: JoinState, link: Link, join: VirtualJoin)
    requires s.Valid() && Pair(s.run, link) && SameName(s.run[0].table.table, join.right.table)
    requires SameName(s.run[1].table.table, join.left.table) && !IsSliceSimilar(link.columns, join.left.columns)
    requires !JudgeKey(catalog, s.graph, s.run[0].table.schema, join, 0).Refused?
    ensures
      var final := AfterJoins(catalog, s, [join]).run;
      !CanBeOrdered(EntryNodes(final, final))
  {
    OppositeApplies(s.run, link, join);
    OneTurn(catalog, s, join);
    ClosingTurn(catalog, s, join);
    SameTables(catalog, s, [join]);
    OrderedIffNoCycle(AfterJoins(catalog, s, [join]).run);
  }

  /** A preparation that passes every check and never ends. */
  method PrepareForever(catalog: Catalog, database: string, names: seq<string>, joins: seq<VirtualJoin>)
    returns (r: Result<SortOutcome, RunError>)
    requires PlainCatalog(catalog) && '.' !in database && forall i, j | 0 <= i < j < |names| :: names[i] != names[j]
    requires AllLoadable(catalog, Roots(database, names)) && AllAdmitted(catalog, Roots(database, names))
    requires NeverSorts(catalog, Roots(database, names), joins)
    ensures r.Ok? && r.value.NeverEnds?
  {
    r := PrepareWithJoins(catalog, database, names, false, {}, joins, i => ("0", "1"));
  }

  // Orders reference customers, and a join makes customers reference their last order.

  function Customers(): QName { QName("db", "customers") }

  function Orders(): QName { QName("db", "orders") }

  function ShopCatalog(): Catalog {
    map[
      Customers() := TableDef([ID, Reference("last")], []),
      Orders() := TableDef([ID, Reference("customer")], [ForeignKey("customer", Customers(), ["customer"], ["id"])])
    ]
  }

  function ShopRoots(): seq<QName> { [Customers(), Orders()] }

  function LastOrder(): VirtualJoin {
    VirtualJoin(VirtualJoinPart("orders", ["id"]), VirtualJoinPart("customers", ["last"]))
  }

  lemma ShopLoads()
    ensures PlainCatalog(ShopCatalog()) && AllLoadable(ShopCatalog(), ShopRoots())
  {
    var catalog := ShopCatalog();
    forall q <- catalog, k <- catalog[q].keys
      ensures Resolvable(catalog, k)
    {
      assert k.parentColumns == ["id"] && FindField(catalog[k.parent].fields, "id") == Some(ID);
    }
  }

  lemma NothingBehind(graph: Refs<QName>, q: QName)
    requires q in graph && graph[q] == []
    ensures !RepeatsFrom(graph, q)
  {
    RepeatsIffTableTwice(graph, q);
    forall v: seq<QName> | IsWalk<QName>(graph, v) && v != [] && v[0] == q
      ensures |v| == 1
    {
      if |v| > 1 {
        TailIsWalk(graph, v);
      }
    }
  }

  lemma ShopPasses()
    ensures AllAdmitted(ShopCatalog(), ShopRoots())
    ensures forall i | 0 <= i < |ShopRoots()| :: !NamesItself(ShopCatalog(), ShopRoots()[i])
  {
    var catalog := ShopCatalog();
    NothingBehind(CatalogRefs(catalog), Customers());
    assert OwnNameKey(catalog[Customers()].keys, "customers") == 0;
    assert OwnNameKey(catalog[Orders()].keys, "orders") == 1;
  }

  function CustomerKey(): Link { Link("customers", ["customer"], ["id"]) }

  lemma ShopStarts()
    ensures AllKnown(ShopCatalog(), ShopRoots()) && Pair(Start(ShopCatalog(), ShopRoots()).run, CustomerKey())
    ensures Start(ShopCatalog(), ShopRoots()).run[0].table == Customers()
    ensures Start(ShopCatalog(), ShopRoots()).run[1].table == Orders()
  {
    var catalog := ShopCatalog();
    ShopPasses();
    StartIsCatalog(catalog, ShopRoots());
    assert |Lower("customers")| == 9 && |Lower("orders")| == 6;
    assert LinksOf(catalog[Customers()].keys) == [];
    assert LinksOf(catalog[Orders()].keys) == [LinkOf(catalog[Orders()].keys[0])];
  }

  lemma LastOrderIsNotRefused()
    ensures AllKnown(ShopCatalog(), ShopRoots())
    ensures !JudgeKey(ShopCatalog(), CheckedRefs(ShopCatalog(), ShopRoots()), "db", LastOrder(), 0).Refused?
  {
    var catalog := ShopCatalog();
    ShopLoads();
    assert FindField(catalog[Orders()].fields, "id") == Some(ID);
    assert |Lower("id")| == 2 && |Lower("last")| == 4;
    assert FindField(catalog[Customers()].fields, "last") == Some(Reference("last"));
    assert !Unloadable(catalog, ShopRoots()[0]) && !Unloadable(catalog, ShopRoots()[1]);
  }

  lemma OtherColumn()
    ensures !IsSliceSimilar(["customer"], ["id"])
  {
    assert |Lower("id")| == 2 && |Lower("customer")| == 8;
    assert !HasName(["id"], ["customer"][0]);
  }

  lemma ShopNeverSorts()
    ensures NeverSorts(ShopCatalog(), ShopRoots(), [LastOrder()])
  {
    ShopStarts();
    LastOrderIsNotRefused();
    OtherColumn();
    OppositeNeverEnds(ShopCatalog(), Start(ShopCatalog(), ShopRoots()), CustomerKey(), LastOrder());
  }

  function ShopNames(): seq<string> { ["customers", "orders"] }

  lemma ShopIsNamed()
    ensures Roots("db", ShopNames()) == ShopRoots()
    ensures forall i, j | 0 <= i < j < |ShopNames()| :: ShopNames()[i] != ShopNames()[j]
  {
    assert |"customers"| != |"orders"|;
  }

  /** The join becomes a key although its parent leads to its child already, and
      the preparation never ends. */
  method PrepareShop() returns (r: Result<SortOutcome, RunError>)
    ensures r.Ok? && r.value.NeverEnds?
  {
    ShopLoads();
    ShopPasses();
    ShopNeverSorts();
    ShopIsNamed();
    r := PrepareForever(ShopCatalog(), "db", ShopNames(), [LastOrder()]);
  }

  // References that always lead to a lower rank form no cycle.

  ghost predicate Ranked<N(!new)>(refs: Refs<N>, rank: map<N, nat>) {
    forall a, b | a in refs && b in refs && b in refs[a] :: a in rank && b in rank && rank[b] < rank[a]
  }

  lemma {:induction false} RankFalls<N(!new)>(refs: Refs<N>, rank: map<N, nat>, w: seq<N>)
    requires IsWalk<N>(refs, w) && w != [] && Ranked<N>(refs, rank)
    ensures |w| > 1 ==> w[0] in rank && w[|w| - 1] in rank && rank[w[|w| - 1]] < rank[w[0]]
  {
    if |w| > 1 {
      assert w[|w| - 1] in refs[w[|w| - 2]];
      RankFalls<N>(refs, rank, w[..|w| - 1]);
    }
  }

  lemma RankedIsAcyclic<N(!new)>(refs: Refs<N>, rank: map<N, nat>)
    requires Ranked<N>(refs, rank)
    ensures Acyclic<N>(refs)
  {
    forall a, b | a in refs && b in refs && b in refs[a]
      ensures !Reaches<N>(refs, b, a)
    {
      if w: seq<N> :| Connects<N>(refs, b, a, w) {
        var u := [a] + w;
        assert IsWalk<N>(refs, u) && u[|u| - 1] == a;
        RankFalls<N>(refs, rank, u);
      }
    }
  }

  // The table a references x, which is not listed, and x references b. One join
  // asks for b to reference a, another for c to reference a.

  function X(): QName { QName("db", "x") }

  function C(): QName { QName("db", "c") }

  function Referencing(column: string, keys: seq<ForeignKey>): TableDef {
    TableDef([ID, Reference(column)], keys)
  }

  function WayBackCatalog(): Catalog {
    map[
      A() := Referencing("x", [ForeignKey("x", X(), ["x"], ["id"])]),
      X() := Referencing("b", [ForeignKey("b", B(), ["b"], ["id"])]),
      B() := Referencing("a", []),
      C() := Referencing("a", [])
    ]
  }

  function WayBackRoots(): seq<QName> { [A(), B(), C()] }

  function ToA(child: string): VirtualJoin {
    VirtualJoin(VirtualJoinPart("a", ["id"]), VirtualJoinPart(child, ["a"]))
  }

  function WayBackJoins(): seq<VirtualJoin> { [ToA("b"), ToA("c")] }

  lemma WayBackLoads()
    ensures PlainCatalog(WayBackCatalog()) && AllLoadable(WayBackCatalog(), WayBackRoots())
  {
    var catalog := WayBackCatalog();
    forall q <- catalog, k <- catalog[q].keys
      ensures Resolvable(catalog, k)
    {
      assert k.parentColumns == ["id"] && FindField(catalog[k.parent].fields, "id") == Some(ID);
    }
  }

  lemma WayBackIsAcyclic()
    ensures Acyclic<QName>(CatalogRefs(WayBackCatalog()))
    ensures UniqueNames<QName>(TableOf(CatalogRefs(WayBackCatalog())))
  {
    var rank: map<QName, nat> := map[A() := 2, X() := 1, B() := 0, C() := 0];
    RankedIsAcyclic<QName>(CatalogRefs(WayBackCatalog()), rank);
  }

  lemma WayBackPasses()
    ensures AllAdmitted(WayBackCatalog(), WayBackRoots())
    ensures forall i | 0 <= i < |WayBackRoots()| :: !NamesItself(WayBackCatalog(), WayBackRoots()[i])
  {
    var catalog := WayBackCatalog();
    WayBackIsAcyclic();
    NoCycleNoRepeat(CatalogRefs(catalog), X());
    assert OwnNameKey(catalog[A()].keys, "a") == 1;
    assert OwnNameKey(catalog[B()].keys, "b") == 0 && OwnNameKey(catalog[C()].keys, "c") == 0;
  }

  function KeyToA(): Link { Link("a", ["a"], ["id"]) }

  function KeyToX(): Link { Link("x", ["x"], ["id"]) }

  function WayBackRun(b: seq<Link>, c: seq<Link>): seq<Entry> {
    [Entry(A(), [KeyToX()]), Entry(B(), b), Entry(C(), c)]
  }

  lemma OneLetterNames()
    ensures !SameName("a", "b") && !SameName("a", "c") && !SameName("b", "c")
    ensures !SameName("a", "x") && !SameName("b", "x") && !SameName("c", "x")
  {
    assert Lower("a")[0] == 'a' && Lower("b")[0] == 'b' && Lower("c")[0] == 'c' && Lower("x")[0] == 'x';
  }

  lemma WayBackPlaces(b: seq<Link>, c: seq<Link>)
    ensures DistinctRun(WayBackRun(b, c)) && EntryNamed(WayBackRun(b, c), "a") == 0
    ensures EntryNamed(WayBackRun(b, c), "b") == 1 && EntryNamed(WayBackRun(b, c), "c") == 2
    ensures EntryNamed(WayBackRun(b, c), "x") == 3
  {
    OneLetterNames();
    EntryNamedAt(WayBackRun(b, c), "a", 0);
    EntryNamedAt(WayBackRun(b, c), "b", 1);
    EntryNamedAt(WayBackRun(b, c), "c", 2);
  }

  lemma BothApply()
    ensures Applies(WayBackRun([], []), ToA("b")) && Applies(WayBackRun([KeyToA()], []), ToA("c"))
  {
    OneLetterNames();
    WayBackPlaces([], []);
    WayBackPlaces([KeyToA()], []);
  }

  lemma KeyOfEdge(run: seq<Entry>, i: nat, j: nat) returns (l: Link)
    requires i < |run| && j in LinkGraph(run)[i]
    ensures l in run[i].links && j == EntryNamed(run, l.parent) < |run|
  {
    TargetsAreListed(run, i);
    l :| l in run[i].links && j == EntryNamed(run, l.parent);
  }

  lemma WantedEdge(i: nat, j: nat)
    requires i < 3 && j in LinkGraph(WayBackRun([KeyToA()], [KeyToA()]))[i]
    ensures i != 0 && j == 0
  {
    WayBackPlaces([KeyToA()], [KeyToA()]);
    var l := KeyOfEdge(WayBackRun([KeyToA()], [KeyToA()]), i, j);
  }

  lemma ToFirstIsAcyclic(graph: Refs<nat>)
    requires forall i, j | i in graph && j in graph[i] :: i != 0 && j == 0
    ensures Acyclic<nat>(graph)
  {
    RankedIsAcyclic<nat>(graph, map i | i in graph.Keys + {0} :: if i == 0 then 0 else 1);
  }

  /** As written the joins make b and c reference a: no cycle among the three. */
  lemma WantedIsAcyclic()
    ensures Acyclic<nat>(LinkGraph(WayBackRun([KeyToA()], [KeyToA()])))
  {
    var graph := LinkGraph(WayBackRun([KeyToA()], [KeyToA()]));
    forall i: nat, j: nat | i in graph && j in graph[i]
      ensures i != 0 && j == 0
    {
      WantedEdge(i, j);
    }
    ToFirstIsAcyclic(graph);
  }

  lemma AWithId()
    ensures A() in WayBackCatalog() && HasColumns(WayBackCatalog()[A()].fields, ["id"])
  {
    assert FindField(WayBackCatalog()[A()].fields, "id") == Some(ID);
  }

  lemma CWithA()
    ensures C() in WayBackCatalog() && HasColumns(WayBackCatalog()[C()].fields, ["a"])
  {
    assert |Lower("id")| == 2 && |Lower("a")| == 1;
    assert FindField(WayBackCatalog()[C()].fields, "a") == Some(Reference("a"));
  }

  lemma WayBackGrows()
    ensures WayBackRun([], [])[1 := Entry(B(), [] + [KeyToA()])] == WayBackRun([KeyToA()], [])
    ensures WayBackRun([KeyToA()], [])[2 := Entry(C(), [] + [KeyToA()])] == WayBackRun([KeyToA()], [KeyToA()])
  {
    assert [] + [KeyToA()] == [KeyToA()];
  }

  lemma WayBackAsWritten()
    ensures Unguarded(WayBackCatalog(), WayBackRun([], []), WayBackJoins()) == WayBackRun([KeyToA()], [KeyToA()])
  {
    var catalog, joins := WayBackCatalog(), WayBackJoins();
    BothApply();
    AWithId();
    WayBackPlaces([], []);
    WayBackPlaces([KeyToA()], []);
    WayBackGrows();
    assert AsWritten(WayBackRun([], []), joins[0]) == WayBackRun([KeyToA()], []);
    assert AsWritten(WayBackRun([KeyToA()], []), joins[1]) == WayBackRun([KeyToA()], [KeyToA()]);
    assert joins[1..][0] == joins[1] && joins[1..][1..] == [];
  }

  lemma WayBackEntries()
    ensures AllKnown(WayBackCatalog(), WayBackRoots())
    ensures RootEntries(WayBackCatalog(), WayBackRoots()) == WayBackRun([], [])
  {
    var catalog := WayBackCatalog();
    var entries := RootEntries(catalog, WayBackRoots());
    assert entries[0].links == [LinkOf(catalog[A()].keys[0])] && entries[1].links == [] && entries[2].links == [];
  }

  lemma WayBackStarts()
    ensures AllKnown(WayBackCatalog(), WayBackRoots())
    ensures Start(WayBackCatalog(), WayBackRoots()) == JoinState(CatalogRefs(WayBackCatalog()), WayBackRun([], []))
  {
    WayBackPasses();
    WayBackEntries();
    StartIsCatalog(WayBackCatalog(), WayBackRoots());
  }

  lemma WayBackRootsDiffer()
    ensures DistinctRoots(WayBackRoots())
  {
    OneLetterNames();
  }

  // The two turns.

  function Before(): JoinState { JoinState(CatalogRefs(WayBackCatalog()), WayBackRun([], [])) }

  function Between(): JoinState
  {
    JoinState(AddEdge<QName>(CatalogRefs(WayBackCatalog()), B(), A()), WayBackRun([KeyToA()], []))
  }

  /** The first join finds no cycle and makes b reference a. */
  lemma FirstTurn()
    ensures Before().Valid() && JudgeJoin(WayBackCatalog(), Before(), ToA("b")) == Attached(1, A(), KeyToA())
    ensures Turned(Before(), Attached(1, A(), KeyToA())) == Between() && !Flips(WayBackCatalog(), Before(), ToA("b"))
  {
    WayBackIsAcyclic();
    NoCycleNoRepeat(CatalogRefs(WayBackCatalog()), A());
    BothApply();
    AWithId();
    WayBackLoads();
    WayBackPlaces([], []);
    assert !Unloadable(WayBackCatalog(), WayBackRoots()[0]);
    VerdictAsWritten(WayBackCatalog(), Before(), ToA("b"));
    WayBackGrows();
  }

  lemma CircleByX()
    ensures RepeatsFrom(Between().graph, A())
  {
    var w, graph := [A(), X(), B(), A()], Between().graph;
    assert graph[A()] == [X()] && graph[X()] == [B()] && graph[B()] == [A()];
    assert IsWalk<QName>(graph, w);
    assert w[0].table == w[3].table;
    RepeatsIffTableTwice(graph, A());
  }

  lemma FiredMeansFlipped(catalog: Catalog, s: JoinState, join: VirtualJoin)
    requires s.Valid() && Applies(s.run, join)
    requires
      var schema := s.run[EntryNamed(s.run, join.right.table)].table.schema;
      && GuardFires(s.graph, schema, join)
      && !Broken(catalog, QName(schema, join.left.table), join.left.columns)
      && !Broken(catalog, QName(schema, join.right.table), join.right.columns)
    ensures Flips(catalog, s, join)
  {
  }

  /** The second finds the circle from a by way of x and b, and makes c reference itself. */
  lemma SecondTurn()
    ensures Between().Valid() && Flips(WayBackCatalog(), Between(), ToA("c"))
  {
    var catalog := WayBackCatalog();
    CircleByX();
    BothApply();
    AWithId();
    WayBackLoads();
    WayBackPlaces([KeyToA()], []);
    assert !Unloadable(catalog, WayBackRoots()[0]) && !Unloadable(catalog, WayBackRoots()[2]);
    CWithA();
    FiredMeansFlipped(catalog, Between(), ToA("c"));
  }

  lemma WayBackFlips()
    ensures Before().Valid() && SomeFlip(WayBackCatalog(), Before(), WayBackJoins())
  {
    FirstTurn();
    SecondTurn();
    assert WayBackJoins()[1..][0] == ToA("c");
  }

  lemma WayBackTable(p: QName)
    requires LedTo(WayBackCatalog(), WayBackRoots(), p)
    ensures p == A() || p == X() || p == B() || p == C()
  {
    assert p in CatalogRefs(WayBackCatalog());
  }

  lemma WayBackIsDistinctlyNamed()
    ensures DistinctlyNamed(WayBackCatalog(), WayBackRoots())
  {
    OneLetterNames();
    forall p, q | LedTo(WayBackCatalog(), WayBackRoots(), p) && LedTo(WayBackCatalog(), WayBackRoots(), q)
      && SameName(p.table, q.table)
      ensures p == q
    {
      WayBackTable(p);
      WayBackTable(q);
    }
  }

  lemma WayBackParents()
    ensures ParentsListed(WayBackRun([], []), WayBackJoins())
  {
    WayBackPlaces([], []);
    assert WayBackRun([], [])[0].table == QName("db", "a");
  }

  lemma WayBackIsPlain()
    ensures Plain(WayBackCatalog(), WayBackRoots())
  {
    WayBackLoads();
    WayBackPasses();
    WayBackIsDistinctlyNamed();
  }

  /** Without the condition on unlisted tables the keys as written do not decide:
      here they form no cycle, and still the sort does not end. */
  lemma WayBackNeverSorts()
    ensures NeverSorts(WayBackCatalog(), WayBackRoots(), WayBackJoins())
    ensures Plain(WayBackCatalog(), WayBackRoots())
    ensures ParentsListed(RootEntries(WayBackCatalog(), WayBackRoots()), WayBackJoins())
    ensures
      var want := Unguarded(WayBackCatalog(), RootEntries(WayBackCatalog(), WayBackRoots()), WayBackJoins());
      Acyclic<nat>(LinkGraph(want))
  {
    WayBackIsPlain();
    WayBackParents();
    WayBackStarts();
    WayBackEntries();
    WayBackFlips();
    WayBackRootsDiffer();
    WayBackAsWritten();
    WantedIsAcyclic();
    TurnedJoinNeverEnds(WayBackCatalog(), WayBackRoots(), WayBackJoins());
  }

  function WayBackNames(): seq<string> { ["a", "b", "c"] }

  lemma WayBackIsNamed()
    ensures Roots("db", WayBackNames()) == WayBackRoots()
    ensures forall i, j | 0 <= i < j < |WayBackNames()| :: WayBackNames()[i] != WayBackNames()[j]
  {
    assert "a"[0] != "b"[0] && "a"[0] != "c"[0] && "b"[0] != "c"[0];
  }

  method PrepareWayBack() returns (r: Result<SortOutcome, RunError>)
    ensures r.Ok? && r.value.NeverEnds?
  {
    WayBackLoads();
    WayBackPasses();
    WayBackNeverSorts();
    WayBackIsNamed();
    r := PrepareForever(WayBackCatalog(), "db", WayBackNames(), WayBackJoins());
  }
}
