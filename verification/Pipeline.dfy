/** The run of cmd/run.go up to the first insert, without virtual keys: load,
    check for loops, split, flag, sort. Its promise is stated on the database catalogue. */
module Pipeline {
  import opened Text
  import opened Sequences
  import opened Fields
  import opened ReferenceGraph
  import opened Schema
  import opened Loader
  import opened Loading
  import opened RunOrder
  import opened TableSort
  import opened LoopCheck
  import opened RunSort

  // The objects in the cache mirror the catalogue.

  ghost function CatalogNames(ts: set<Table>): map<Table, QName> {
    map t | t in ts :: NameOf(t)
  }

  /** The key has copies of the columns it names, of the table as it was read. */
  ghost predicate CopiesAsRead(t: Table, catalog: Catalog)
    reads t`constraints, t.constraints`fields
  {
    && NameOf(t) in catalog && |t.constraints| == |catalog[NameOf(t)].keys|
    && forall i | 0 <= i < |t.constraints| ::
         t.constraints[i].fields == Located(catalog[NameOf(t)].fields, catalog[NameOf(t)].keys[i].columns)
  }

  lemma KeyMirrors(loader: TableLoader, t: Table, i: nat)
    requires Complete(loader) && t in loader.cache.Values && Finished(t, loader.cache, loader.catalog)
    requires i < |t.constraints|
    ensures
      var c, parent := t.constraints[i], loader.catalog[NameOf(t)].keys[i].parent;
      && c.referencedTable != null && NameOf(c.referencedTable) == parent
      && c.referencedTableName == parent.table && !c.willBeInsertedDuringThisRun
  {
    var k := loader.catalog[NameOf(t)].keys[i];
    assert Linked(t.constraints[i], k, loader.catalog[NameOf(t)].fields, loader.cache, loader.catalog);
    FullNameInjective(k.parent, NameOf(loader.cache[k.parent.FullName()]));
  }

  lemma CopiesOfLoaded(loader: TableLoader, t: Table)
    requires Complete(loader) && t in loader.cache.Values
    ensures CopiesAsRead(t, loader.catalog)
  {
    assert Finished(t, loader.cache, loader.catalog);
    forall i | 0 <= i < |t.constraints|
      ensures
        var def := loader.catalog[NameOf(t)];
        t.constraints[i].fields == Located(def.fields, def.keys[i].columns)
    {
      var def := loader.catalog[NameOf(t)];
      assert Linked(t.constraints[i], def.keys[i], def.fields, loader.cache, loader.catalog);
    }
  }

  lemma KeysAreNamed(loader: TableLoader, ts: set<Table>, refs: Refs<Table>)
    requires Complete(loader) && ts == loader.cache.Values && GraphNow(ts, refs)
    ensures NamesFit(ts, refs) && NoneFlagged(ConstraintsOf(ts))
  {
    forall t, i | t in ts && 0 <= i < |t.constraints|
      ensures KeyAt(t, i, refs) && t.constraints[i].referencedTableName == refs[t][i].name
      ensures !t.constraints[i].willBeInsertedDuringThisRun
    {
      assert KeyAt(t, i, refs) && Finished(t, loader.cache, loader.catalog);
      KeyMirrors(loader, t, i);
    }
    forall t <- ts
      ensures |refs[t]| == |t.constraints|
    {
      assert KeyAt(t, 0, refs);
    }
  }

  lemma KeysAreRenamed(loader: TableLoader, ts: set<Table>, refs: Refs<Table>)
    requires Complete(loader) && ts == loader.cache.Values && GraphNow(ts, refs)
    ensures Renames<Table, QName>(refs, CatalogRefs(loader.catalog), CatalogNames(ts))
  {
    var more := CatalogRefs(loader.catalog);
    forall t <- ts
      ensures NameOf(t) in more && |more[NameOf(t)]| == |refs[t]|
    {
      assert KeyAt(t, 0, refs) && Finished(t, loader.cache, loader.catalog);
    }
    forall t, i | t in ts && 0 <= i < |refs[t]|
      ensures more[NameOf(t)][i] == NameOf(refs[t][i])
    {
      assert KeyAt(t, i, refs) && Finished(t, loader.cache, loader.catalog);
      KeyMirrors(loader, t, i);
    }
  }

  /** The loaded objects are the catalogue's graph under other names. */
  lemma CompleteCacheMirrors(loader: TableLoader) returns (refs: Refs<Table>)
    requires Complete(loader)
    ensures GraphNow(loader.cache.Values, refs)
    ensures NamesFit(loader.cache.Values, refs) && NoneFlagged(ConstraintsOf(loader.cache.Values))
    ensures Renames<Table, QName>(refs, CatalogRefs(loader.catalog), CatalogNames(loader.cache.Values))
  {
    FinishedCacheIsWired(loader);
    refs := TableRefs(loader.cache.Values);
    RefsAreGraphNow(loader.cache.Values, refs);
    KeysAreNamed(loader, loader.cache.Values, refs);
    KeysAreRenamed(loader, loader.cache.Values, refs);
  }

  // The promise, in terms of the catalogue.

  /** No two tables that the roots lead to have the same name, whatever their case. */
  ghost predicate DistinctlyNamed(catalog: Catalog, roots: seq<QName>) {
    forall p, q | LedTo(catalog, roots, p) && LedTo(catalog, roots, q) && SameName(p.table, q.table) :: p == q
  }

  /** The first key that references the table itself; the number of keys if there is none. */
  function FirstSelfKey(keys: seq<ForeignKey>, q: QName): (i: nat)
    ensures i <= |keys| && (i < |keys| ==> keys[i].parent == q) && forall k | 0 <= k < i :: keys[k].parent != q
  {
    if keys == [] || keys[0].parent == q then 0 else 1 + FirstSelfKey(keys[1..], q)
  }

  predicate ReferencesItselfDirectly(catalog: Catalog, q: QName) {
    q in catalog && FirstSelfKey(catalog[q].keys, q) < |catalog[q].keys|
  }

  ghost predicate TwoSelfKeys(catalog: Catalog, q: QName) {
    q in catalog && exists i, j | 0 <= i < j < |catalog[q].keys| ::
      catalog[q].keys[i].parent == q == catalog[q].keys[j].parent
  }

  predicate SelfKeyNullable(catalog: Catalog, q: QName)
    requires ReferencesItselfDirectly(catalog, q)
  {
    var def := catalog[q];
    forall f <- Located(def.fields, def.keys[FirstSelfKey(def.keys, q)].columns) :: f.isNullable
  }

  /** What the check asks of a listed table. */
  ghost predicate RootPasses(catalog: Catalog, q: QName) {
    if ReferencesItselfDirectly(catalog, q) then SelfKeyNullable(catalog, q)
    else !CycleReachable(CatalogRefs(catalog), q)
  }

  function SetOf(roots: seq<QName>): set<QName> {
    set q <- roots
  }

  /** No listed table has two self-references, and apart from self-references the
      listed tables do not reference each other in a circle. */
  ghost predicate CatalogSortable(catalog: Catalog, roots: seq<QName>)
    requires SetOf(roots) <= catalog.Keys
  {
    (forall q <- roots :: !TwoSelfKeys(catalog, q)) && Acyclic<QName>(Among<QName>(CatalogRefs(catalog), SetOf(roots)))
  }

  /** The listed tables that reference themselves. */
  function SelfReferencing(catalog: Catalog, roots: seq<QName>): seq<QName> {
    if roots == [] then []
    else
      var last := roots[|roots| - 1];
      (if ReferencesItselfDirectly(catalog, last) then [last] else []) + SelfReferencing(catalog, roots[..|roots| - 1])
  }

  /** An order in which every listed table comes as often as it was listed, a
      self-referencing one twice as often, and each after the other listed tables its foreign
      keys point at. */
  ghost predicate GoodOrder(catalog: Catalog, roots: seq<QName>, order: seq<QName>)
    requires SetOf(roots) <= catalog.Keys
  {
    && multiset(order) == multiset(SelfReferencing(catalog, roots)) + multiset(roots)
    && forall k, p | 0 <= k < |order| && order[k] in SetOf(roots)
         && p in Among<QName>(CatalogRefs(catalog), SetOf(roots))[order[k]] :: p in order[..k]
  }

  datatype RunError = CannotLoad(load: LoadError) | CannotPlan(plan: PlanError)

  /** With distinct table names: the check passes exactly if every listed table
      does; then the sort ends exactly if the list is sortable, with a good order. */
  ghost predicate Delivers(catalog: Catalog, roots: seq<QName>, r: Result<SortOutcome, RunError>)
    requires SetOf(roots) <= catalog.Keys
  {
    DistinctlyNamed(catalog, roots) ==>
      && (r.Ok? <==> forall q <- roots :: RootPasses(catalog, q))
      && (r.Ok? ==> (r.value.Sorted? <==> CatalogSortable(catalog, roots)))
      && (r.Ok? && r.value.Sorted? ==> GoodOrder(catalog, roots, NamesOfTables(r.value.order)))
  }

  function NamesOfTables(ts: seq<Table>): (names: seq<QName>)
    ensures |names| == |ts| && forall i | 0 <= i < |ts| :: names[i] == NameOf(ts[i])
  {
    if ts == [] then [] else [NameOf(ts[0])] + NamesOfTables(ts[1..])
  }

  // Table by table.

  /** The tables in memory, their graph and the catalogue they were read from. */
  ghost predicate Mirrors(ts: set<Table>, names: map<Table, string>, refs: Refs<Table>, catalog: Catalog) {
    && Closed(refs) && refs.Keys == ts && names == TableNames(ts) && UniqueNames<Table>(names)
    && Renames<Table, QName>(refs, CatalogRefs(catalog), CatalogNames(ts))
  }

  lemma SameParent(ts: set<Table>, names: map<Table, string>, refs: Refs<Table>, catalog: Catalog, t: Table, i: nat)
    requires Mirrors(ts, names, refs, catalog) && t in ts && i < |refs[t]|
    ensures NameOf(t) in catalog && |catalog[NameOf(t)].keys| == |refs[t]|
    ensures names[refs[t][i]] == names[t] <==> catalog[NameOf(t)].keys[i].parent == NameOf(t)
  {
    var f := CatalogNames(ts);
    assert CatalogRefs(catalog)[f[t]][i] == f[refs[t][i]];
    assert f[refs[t][i]] == f[t] <==> refs[t][i] == t;
  }

  lemma HomeIsSelfKey(ts: set<Table>, names: map<Table, string>, refs: Refs<Table>, catalog: Catalog, t: Table)
    requires Mirrors(ts, names, refs, catalog) && t in ts
    ensures NameOf(t) in catalog && |catalog[NameOf(t)].keys| == |refs[t]|
    ensures Home<Table>(names, refs, t) == FirstSelfKey(catalog[NameOf(t)].keys, NameOf(t))
    ensures HasHome<Table>(names, refs, t) <==> ReferencesItselfDirectly(catalog, NameOf(t))
    ensures TwoHomes<Table>(names, refs, t) <==> TwoSelfKeys(catalog, NameOf(t))
  {
    assert CatalogNames(ts)[t] in CatalogRefs(catalog);
    forall i | 0 <= i < |refs[t]|
      ensures names[refs[t][i]] == names[t] <==> catalog[NameOf(t)].keys[i].parent == NameOf(t)
    {
      SameParent(ts, names, refs, catalog, t, i);
    }
  }

  lemma PassesIffRootPasses(ts: set<Table>, names: map<Table, string>, refs: Refs<Table>, catalog: Catalog, t: Table)
    requires Mirrors(ts, names, refs, catalog) && t in ts && CopiesAsRead(t, catalog)
    ensures Passes(t, names, refs) <==> RootPasses(catalog, NameOf(t))
  {
    HomeIsSelfKey(ts, names, refs, catalog, t);
    LeadsIntoLoopIffCycle<Table>(names, refs, t);
    CycleRenamed<Table, QName>(refs, CatalogRefs(catalog), CatalogNames(ts), t);
  }

  /** The listed objects stand for the roots. */
  ghost predicate Lists(tables: seq<Table>, ts: set<Table>, roots: seq<QName>) {
    Within(tables, ts) && NamesOfTables(tables) == roots
  }

  lemma RootOf(tables: seq<Table>, ts: set<Table>, roots: seq<QName>, q: QName) returns (t: Table)
    requires Lists(tables, ts, roots) && q in roots
    ensures t in tables && t in ts && NameOf(t) == q
  {
    var i :| 0 <= i < |roots| && roots[i] == q;
    t := tables[i];
  }

  lemma ListedName(tables: seq<Table>, roots: seq<QName>, t: Table)
    requires NamesOfTables(tables) == roots && t in tables
    ensures NameOf(t) in roots
  {
    var i :| 0 <= i < |tables| && tables[i] == t;
    assert roots[i] == NameOf(t);
  }

  lemma AllPassIffRootsPass(tables: seq<Table>, ts: set<Table>, names: map<Table, string>, refs: Refs<Table>,
                            catalog: Catalog, roots: seq<QName>)
    requires Mirrors(ts, names, refs, catalog) && Lists(tables, ts, roots) && AllAsRead(ts, catalog)
    ensures AllPass(tables, names, refs) <==> forall q <- roots :: RootPasses(catalog, q)
  {
    forall i | 0 <= i < |tables|
      ensures Passes(tables[i], names, refs) <==> RootPasses(catalog, roots[i])
    {
      assert CopiesAsRead(tables[i], catalog);
      PassesIffRootPasses(ts, names, refs, catalog, tables[i]);
    }
  }

  lemma ElementsAreRoots(tables: seq<Table>, ts: set<Table>, roots: seq<QName>)
    requires Lists(tables, ts, roots)
    ensures Elements(tables) <= ts && SetOf(roots) == set t <- Elements(tables) :: CatalogNames(ts)[t]
  {
    forall q <- roots
      ensures exists t <- Elements(tables) :: CatalogNames(ts)[t] == q
    {
      var t := RootOf(tables, ts, roots, q);
      assert t in Elements(tables);
    }
    forall t <- Elements(tables)
      ensures CatalogNames(ts)[t] in SetOf(roots)
    {
      ListedName(tables, roots, t);
    }
  }

  lemma SortableIffCatalogSortable(tables: seq<Table>, ts: set<Table>, names: map<Table, string>, refs: Refs<Table>,
                                   catalog: Catalog, roots: seq<QName>)
    requires Mirrors(ts, names, refs, catalog) && Lists(tables, ts, roots) && SetOf(roots) <= catalog.Keys
    ensures Sortable(tables, names, refs) <==> CatalogSortable(catalog, roots)
  {
    ElementsAreRoots(tables, ts, roots);
    AmongRenamed<Table, QName>(refs, CatalogRefs(catalog), CatalogNames(ts), Elements(tables), SetOf(roots));
    forall i | 0 <= i < |tables|
      ensures TwoHomes<Table>(names, refs, tables[i]) <==> TwoSelfKeys(catalog, roots[i])
    {
      HomeIsSelfKey(ts, names, refs, catalog, tables[i]);
    }
  }

  // The order.

  lemma NamesOfBoth(a: seq<Table>, b: seq<Table>)
    ensures NamesOfTables(a + b) == NamesOfTables(a) + NamesOfTables(b)
  {
  }

  lemma SplitStepIsNamed(rest: seq<Table>, t: Table, names: map<Table, string>, refs: Refs<Table>, self: bool)
    requires Closed(refs) && names.Keys == refs.Keys && t in refs && forall x <- rest :: x in refs
    requires self == HasHome<Table>(names, refs, t)
    ensures NamesOfTables(rest + [t]) == NamesOfTables(rest) + [NameOf(t)]
    ensures NamesOfTables(Splits(rest + [t], names, refs))
         == (if self then [NameOf(t)] else []) + NamesOfTables(Splits(rest, names, refs))
  {
    SplitsSnoc(rest, t, names, refs);
    NamesOfBoth(rest, [t]);
    NamesOfBoth([t], Splits(rest, names, refs));
    assert NamesOfTables([t]) == [NameOf(t)];
  }

  lemma SelfReferencingSnoc(catalog: Catalog, roots: seq<QName>, q: QName)
    ensures SelfReferencing(catalog, roots + [q])
         == (if ReferencesItselfDirectly(catalog, q) then [q] else []) + SelfReferencing(catalog, roots)
  {
    assert (roots + [q])[..|roots|] == roots;
  }

  ghost predicate SelfAlike(t: Table, names: map<Table, string>, refs: Refs<Table>, catalog: Catalog) {
    Closed(refs) && names.Keys == refs.Keys && t in refs &&
    (HasHome<Table>(names, refs, t) <==> ReferencesItselfDirectly(catalog, NameOf(t)))
  }

  lemma {:induction false} SplitsAreNamed(tables: seq<Table>, names: map<Table, string>, refs: Refs<Table>,
                                          catalog: Catalog)
    requires Closed(refs) && names.Keys == refs.Keys
    requires forall t <- tables :: t in refs && SelfAlike(t, names, refs, catalog)
    ensures NamesOfTables(Splits(tables, names, refs)) == SelfReferencing(catalog, NamesOfTables(tables))
  {
    if tables != [] {
      var rest, t := tables[..|tables| - 1], tables[|tables| - 1];
      assert SelfAlike(t, names, refs, catalog);
      SplitsAreNamed(rest, names, refs, catalog);
      assert rest + [t] == tables;
      SplitStepIsNamed(rest, t, names, refs, ReferencesItselfDirectly(catalog, NameOf(t)));
      SelfReferencingSnoc(catalog, NamesOfTables(rest), NameOf(t));
    }
  }

  lemma SplitsAreSelfReferencing(tables: seq<Table>, ts: set<Table>, names: map<Table, string>, refs: Refs<Table>,
                                 catalog: Catalog)
    requires Mirrors(ts, names, refs, catalog) && Within(tables, ts)
    ensures NamesOfTables(Splits(tables, names, refs)) == SelfReferencing(catalog, NamesOfTables(tables))
  {
    forall t <- tables
      ensures SelfAlike(t, names, refs, catalog)
    {
      HomeIsSelfKey(ts, names, refs, catalog, t);
    }
    SplitsAreNamed(tables, names, refs, catalog);
  }

  lemma CopiesAreNamedAlike(copies: seq<Table>, splits: seq<Table>, names: map<Table, string>, refs: Refs<Table>)
    requires Closed(refs) && names.Keys == refs.Keys && CopiesFit(copies, splits, names, refs)
    ensures NamesOfTables(copies) == NamesOfTables(splits)
  {
    forall k | 0 <= k < |copies|
      ensures NameOf(copies[k]) == NameOf(splits[k])
    {
      assert CopyFits(copies[k], splits[k], names, refs);
    }
  }

  lemma NamesOfTablesMultiset(a: seq<Table>, b: seq<Table>)
    requires multiset(a) == multiset(b)
    ensures multiset(NamesOfTables(a)) == multiset(NamesOfTables(b))
  {
    var m := map t | t in Elements(a) :: NameOf(t);
    forall i | 0 <= i < |b|
      ensures b[i] in Elements(a)
    {
      assert b[i] in multiset(a);
    }
    MappedMultiset<Table, QName>(m, a, NamesOfTables(a), b, NamesOfTables(b));
  }

  lemma OrderedNames(order: seq<Table>, copies: seq<Table>, tables: seq<Table>, ts: set<Table>,
                     names: map<Table, string>, refs: Refs<Table>, catalog: Catalog, roots: seq<QName>)
    requires Mirrors(ts, names, refs, catalog) && Lists(tables, ts, roots)
    requires multiset(order) == multiset(copies + tables) && CopiesFit(copies, Splits(tables, names, refs), names, refs)
    ensures multiset(NamesOfTables(order)) == multiset(SelfReferencing(catalog, roots)) + multiset(roots)
  {
    NamesOfTablesMultiset(order, copies + tables);
    NamesOfBoth(copies, tables);
    CopiesAreNamedAlike(copies, Splits(tables, names, refs), names, refs);
    SplitsAreSelfReferencing(tables, ts, names, refs, catalog);
  }

  /** Whatever stands in the order is named like a listed table. */
  ghost predicate AllListed(order: seq<Table>, tables: seq<Table>) {
    forall i | 0 <= i < |order| :: exists t <- tables :: NameOf(t) == NameOf(order[i])
  }

  lemma OrderedAreListed(tables: seq<Table>, names: map<Table, string>, refs: Refs<Table>, copies: seq<Table>,
                         order: seq<Table>)
    requires Closed(refs) && names.Keys == refs.Keys && (forall t <- tables :: t in refs)
    requires CopiesFit(copies, Splits(tables, names, refs), names, refs) && multiset(order) == multiset(copies + tables)
    ensures AllListed(order, tables)
  {
    var splits := Splits(tables, names, refs);
    forall i | 0 <= i < |order|
      ensures exists t <- tables :: NameOf(t) == NameOf(order[i])
    {
      assert order[i] in multiset(copies + tables);
      if order[i] !in tables {
        var k :| 0 <= k < |copies| && copies[k] == order[i];
        assert CopyFits(copies[k], splits[k], names, refs) && splits[k] in splits;
        assert NameOf(splits[k]) == NameOf(order[i]);
      }
    }
  }

  /** What a root references among the roots, as objects. */
  lemma ParentObject(tables: seq<Table>, ts: set<Table>, names: map<Table, string>, refs: Refs<Table>, catalog: Catalog,
                     roots: seq<QName>, t: Table, p: QName)
    returns (parent: Table)
    requires Mirrors(ts, names, refs, catalog) && Lists(tables, ts, roots) && SetOf(roots) <= catalog.Keys
    requires t in Elements(tables) && NameOf(t) in SetOf(roots)
    requires p in Among<QName>(CatalogRefs(catalog), SetOf(roots))[NameOf(t)]
    ensures Elements(tables) <= refs.Keys && NameOf(parent) == p
    ensures parent in Among<Table>(refs, Elements(tables))[t]
  {
    var f := CatalogNames(ts);
    var i :| 0 <= i < |CatalogRefs(catalog)[f[t]]| && CatalogRefs(catalog)[f[t]][i] == p;
    parent := RootOf(tables, ts, roots, p);
    assert f[refs[t][i]] == p == f[parent];
    assert parent in refs[t] && parent != t;
  }

  lemma NamedAlike(tables: seq<Table>, ts: set<Table>, order: seq<Table>, parent: Table, k: nat)
    requires Within(tables, ts) && UniqueNames<Table>(TableNames(ts)) && parent in ts && AllListed(order, tables)
    requires k <= |order| && NamedAmong(order[..k], parent.name)
    ensures NameOf(parent) in NamesOfTables(order)[..k]
  {
    var j :| 0 <= j < k && order[j].name == parent.name;
    var u :| u in tables && NameOf(u) == NameOf(order[j]);
    assert TableNames(ts)[u] == TableNames(ts)[parent];
    assert NamesOfTables(order)[..k][j] == NameOf(parent);
  }

  lemma ParentStandsBefore(order: seq<Table>, tables: seq<Table>, ts: set<Table>, names: map<Table, string>,
                           refs: Refs<Table>, catalog: Catalog, roots: seq<QName>, k: nat, p: QName)
    requires Mirrors(ts, names, refs, catalog) && Lists(tables, ts, roots) && SetOf(roots) <= catalog.Keys
    requires AllListed(order, tables) && InOrder(order, tables, refs)
    requires k < |order| && NameOf(order[k]) in SetOf(roots)
    requires p in Among<QName>(CatalogRefs(catalog), SetOf(roots))[NameOf(order[k])]
    ensures p in NamesOfTables(order)[..k]
  {
    var t := RootOf(tables, ts, roots, NameOf(order[k]));
    var parent := ParentObject(tables, ts, names, refs, catalog, roots, t, p);
    assert order[k].name == t.name && NamedAmong(order[..k], parent.name);
    NamedAlike(tables, ts, order, parent, k);
  }

  lemma OrderIsGood(order: seq<Table>, copies: seq<Table>, tables: seq<Table>, ts: set<Table>,
                    names: map<Table, string>, refs: Refs<Table>, catalog: Catalog, roots: seq<QName>)
    requires Mirrors(ts, names, refs, catalog) && Lists(tables, ts, roots) && SetOf(roots) <= catalog.Keys
    requires multiset(order) == multiset(copies + tables) && CopiesFit(copies, Splits(tables, names, refs), names, refs)
    requires InOrder(order, tables, refs)
    ensures GoodOrder(catalog, roots, NamesOfTables(order))
  {
    OrderedNames(order, copies, tables, ts, names, refs, catalog, roots);
    OrderedAreListed(tables, names, refs, copies, order);
    forall k, p | 0 <= k < |order| && NameOf(order[k]) in SetOf(roots)
      && p in Among<QName>(CatalogRefs(catalog), SetOf(roots))[NameOf(order[k])]
      ensures p in NamesOfTables(order)[..k]
    {
      ParentStandsBefore(order, tables, ts, names, refs, catalog, roots, k, p);
    }
  }

  // The methods.

  lemma NamesOfRoots(loader: TableLoader, roots: seq<QName>, tables: seq<Table>)
    requires loader.Valid() && ListsRoots(tables, loader.cache, roots)
    requires forall i | 0 <= i < |roots| :: roots[i].Plain()
    ensures NamesOfTables(tables) == roots
  {
    forall i | 0 <= i < |roots|
      ensures NameOf(tables[i]) == roots[i]
    {
      FullNameInjective(roots[i], NameOf(tables[i]));
    }
  }

  lemma RootsAreWithin(tables: seq<Table>, cache: Cache, roots: seq<QName>)
    requires ListsRoots(tables, cache, roots)
    ensures Within(tables, cache.Values)
  {
  }

  lemma DistinctObjects(loader: TableLoader, roots: seq<QName>)
    requires Complete(loader) && HoldsExactlyReachable(loader.cache, loader.catalog, roots)
    requires DistinctlyNamed(loader.catalog, roots)
    ensures DistinctIgnoringCase(loader.cache.Values) && UniqueNames<Table>(TableNames(loader.cache.Values))
  {
    forall k, l | k in loader.cache && l in loader.cache && SameName(loader.cache[k].name, loader.cache[l].name)
      ensures loader.cache[k] == loader.cache[l]
    {
      assert NameOf(loader.cache[k]).FullName() == k && NameOf(loader.cache[l]).FullName() == l;
      assert LedTo(loader.catalog, roots, NameOf(loader.cache[k]));
      assert LedTo(loader.catalog, roots, NameOf(loader.cache[l]));
    }
  }

  /** The objects as loading leaves them. */
  ghost predicate JustLoaded(ts: set<Table>, refs: Refs<Table>, catalog: Catalog)
    reads ts, ConstraintsOf(ts)
  {
    && GraphNow(ts, refs) && NoneShared(ts) && NamesFit(ts, refs) && NoneFlagged(ConstraintsOf(ts))
    && AllAsRead(ts, catalog)
  }

  ghost predicate AllAsRead(ts: set<Table>, catalog: Catalog)
    reads ts`constraints, ConstraintsOf(ts)`fields
  {
    forall t <- ts :: (Covered(ts, t); CopiesAsRead(t, catalog))
  }

  /** What the plan needs of the objects. */
  ghost predicate ReadyToPlan(catalog: Catalog, roots: seq<QName>, tables: seq<Table>, ts: set<Table>,
                              names: map<Table, string>, refs: Refs<Table>)
    reads ts, ConstraintsOf(ts)
  {
    && JustLoaded(ts, refs, catalog) && Lists(tables, ts, roots) && names == TableNames(ts)
    && (DistinctlyNamed(catalog, roots) ==> DistinctIgnoringCase(ts) && Mirrors(ts, names, refs, catalog))
  }

  lemma CompleteIsJustLoaded(loader: TableLoader, ts: set<Table>, refs: Refs<Table>)
    requires Complete(loader) && ts == loader.cache.Values && GraphNow(ts, refs)
    requires NamesFit(ts, refs) && NoneFlagged(ConstraintsOf(ts))
    ensures JustLoaded(ts, refs, loader.catalog)
  {
    OwnedIsNotShared(loader.cache, loader.made, loader.catalog);
    forall t <- ts
      ensures CopiesAsRead(t, loader.catalog)
    {
      CopiesOfLoaded(loader, t);
    }
  }

  lemma LoadedIsReady(loader: TableLoader, roots: seq<QName>, tables: seq<Table>)
    returns (ts: set<Table>, names: map<Table, string>, refs: Refs<Table>)
    requires Complete(loader) && HoldsExactlyReachable(loader.cache, loader.catalog, roots)
    requires ListsRoots(tables, loader.cache, roots) && forall i | 0 <= i < |roots| :: roots[i].Plain()
    ensures ts == loader.cache.Values && ReadyToPlan(loader.catalog, roots, tables, ts, names, refs)
  {
    ts := loader.cache.Values;
    names := TableNames(ts);
    refs := CompleteCacheMirrors(loader);
    CompleteIsJustLoaded(loader, ts, refs);
    NamesOfRoots(loader, roots, tables);
    RootsAreWithin(tables, loader.cache, roots);
    if DistinctlyNamed(loader.catalog, roots) {
      DistinctObjects(loader, roots);
    }
  }

  function AsRun(planned: Result<SortOutcome, PlanError>): Result<SortOutcome, RunError> {
    if planned.Ok? then Ok(planned.value) else Err(CannotPlan(planned.error))
  }

  lemma PlanDelivers(catalog: Catalog, roots: seq<QName>, tables: seq<Table>, ts: set<Table>, names: map<Table, string>,
                     refs: Refs<Table>, planned: Result<SortOutcome, PlanError>, copies: seq<Table>)
    requires Lists(tables, ts, roots) && SetOf(roots) <= catalog.Keys
    requires DistinctlyNamed(catalog, roots) ==>
      && Mirrors(ts, names, refs, catalog)
      && (planned.Ok? <==> forall q <- roots :: RootPasses(catalog, q))
      && (planned.Ok? ==>
            && CopiesFit(copies, Splits(tables, names, refs), names, refs)
            && Planned(planned.value, copies, tables, names, refs))
    ensures Delivers(catalog, roots, AsRun(planned))
  {
    if DistinctlyNamed(catalog, roots) && planned.Ok? {
      SortableIffCatalogSortable(tables, ts, names, refs, catalog, roots);
      if planned.value.Sorted? {
        OrderIsGood(planned.value.order, copies, tables, ts, names, refs, catalog, roots);
      }
    }
  }

  /** From the loaded objects to the order. */
  method PlanReady(tables: seq<Table>, ghost ts: set<Table>, ghost names: map<Table, string>, ghost refs: Refs<Table>,
                   ghost catalog: Catalog, ghost roots: seq<QName>)
    returns (r: Result<SortOutcome, RunError>)
    requires ReadyToPlan(catalog, roots, tables, ts, names, refs) && SetOf(roots) <= catalog.Keys
    modifies ConstraintsOf(ts)
    ensures r.Ok? || r.error.CannotPlan?
    ensures Delivers(catalog, roots, r)
  {
    ghost var distinct := DistinctlyNamed(catalog, roots);
    if distinct {
      AllPassIffRootsPass(tables, ts, names, refs, catalog, roots);
    }
    ghost var copies;
    var planned;
    planned, copies := PlanInserts(tables, ts, names, refs);
    PlanDelivers(catalog, roots, tables, ts, names, refs, planned, copies);
    r := AsRun(planned);
  }

  lemma LoadableAreKnown(catalog: Catalog, roots: seq<QName>)
    requires AllLoadable(catalog, roots)
    ensures SetOf(roots) <= catalog.Keys
  {
    forall q <- roots
      ensures q in catalog
    {
      var i :| 0 <= i < |roots| && roots[i] == q;
    }
  }

  /** The tables, and the loader that made them. */
  method LoadListed(catalog: Catalog, database: string, names: seq<string>, skipFields: bool, identifiers: set<string>)
    returns (r: Result<seq<Table>, LoadError>, loader: TableLoader,
             ghost ts: set<Table>, ghost tableNames: map<Table, string>, ghost refs: Refs<Table>)
    requires PlainCatalog(catalog) && '.' !in database
    ensures r.Ok? <==> AllLoadable(catalog, Roots(database, names))
    ensures r.Ok? ==> ReadyToPlan(catalog, Roots(database, names), r.value, ts, tableNames, refs)
    ensures r.Ok? ==> Complete(loader) && loader.catalog == catalog && ts == loader.cache.Values
    ensures fresh(loader) && fresh(loader.made.Keys)
    ensures r.Ok? ==> fresh(r.value) && forall c <- ConstraintsOf(ts) :: c in loader.made
  {
    loader := new TableLoader(catalog);
    r := LoadTables(loader, database, names, skipFields, identifiers);
    ts, tableNames, refs := {}, map[], map[];
    if r.Ok? {
      ts, tableNames, refs := LoadedIsReady(loader, Roots(database, names), r.value);
      ConstraintsAreMade(loader);
      TablesAreMade(loader, Roots(database, names), r.value);
    }
  }

  lemma TablesAreMade(loader: TableLoader, roots: seq<QName>, tables: seq<Table>)
    requires loader.Valid() && ListsRoots(tables, loader.cache, roots)
    ensures forall t <- tables :: t in loader.made
  {
    forall i | 0 <= i < |tables|
      ensures tables[i] in loader.made
    {
      assert Owns(loader.cache[roots[i].FullName()], loader.made);
    }
  }

  lemma ConstraintsAreMade(loader: TableLoader)
    requires loader.Valid()
    ensures forall c <- ConstraintsOf(loader.cache.Values) :: c in loader.made
  {
    forall k, c | k in loader.cache && c in loader.cache[k].constraints
      ensures c in loader.made
    {
      assert Owns(loader.cache[k], loader.made);
    }
  }

  /** The whole preparation. */
  method Prepare(catalog: Catalog, database: string, names: seq<string>, skipFields: bool, identifiers: set<string>)
    returns (r: Result<SortOutcome, RunError>)
    requires PlainCatalog(catalog) && '.' !in database
    ensures r.Err? && r.error.CannotLoad? <==> !AllLoadable(catalog, Roots(database, names))
    ensures AllLoadable(catalog, Roots(database, names)) ==>
      SetOf(Roots(database, names)) <= catalog.Keys && Delivers(catalog, Roots(database, names), r)
  {
    ghost var ts, tableNames, refs;
    var loaded, loader;
    loaded, loader, ts, tableNames, refs := LoadListed(catalog, database, names, skipFields, identifiers);
    if loaded.Err? {
      return Err(CannotLoad(loaded.error));
    }
    LoadableAreKnown(catalog, Roots(database, names));
    r := PlanReady(loaded.value, ts, tableNames, refs, catalog, Roots(database, names));
  }
}
