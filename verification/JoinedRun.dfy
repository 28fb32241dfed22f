/** The run of cmd/run.go with virtual keys: they are attached after the loop
    check and before the sort, and whether all of them could be attached is not asked. */
module JoinedRun {
  import opened Text
  import opened Sequences
  import opened ReferenceGraph
  import opened Schema
  import opened Loader
  import opened Loading
  import opened RunOrder
  import opened TableSort
  import opened LoopCheck
  import opened RunSort
  import opened Pipeline
  import opened VirtualJoins
  import opened JoinSteps
  import opened JoinMirror
  import opened VirtualKeys
  import opened JoinStart

  // The check.

  /** A reference that moved still goes to a table of the same name. */
  lemma TargetStillNamed(ts: set<Table>, all: set<Table>, now: Refs<Table>, names: map<Table, string>,
                         refs: Refs<Table>, t: Table, i: nat)
    requires Checking(all, now, names, refs) && NamesFit(ts, refs) && names == TableNames(ts) && refs.Keys == ts
    requires t in ts && i < |t.constraints|
    ensures t.constraints[i].referencedTable != null
    ensures t.constraints[i].referencedTable.name == t.constraints[i].referencedTableName
  {
    assert KeptOrHome<Table>(names, refs, TableNames(all), now, t, i);
    assert KeyAt(t, i, now);
  }

  lemma KeysStillNamed(ts: set<Table>, all: set<Table>, now: Refs<Table>, names: map<Table, string>, refs: Refs<Table>)
    requires Checking(all, now, names, refs) && NamesFit(ts, refs) && names == TableNames(ts) && refs.Keys == ts
    requires ConstraintsOf(all) <= ConstraintsOf(ts)
    ensures NamesFit(all, now)
  {
    forall c <- ConstraintsOf(ts)
      ensures c.referencedTable != null && c.referencedTable.name == c.referencedTableName
    {
      var t :| t in ts && c in t.constraints;
      var i :| 0 <= i < |t.constraints| && t.constraints[i] == c;
      TargetStillNamed(ts, all, now, names, refs, t, i);
    }
    forall u <- all
      ensures |now[u]| == |u.constraints|
      ensures forall i | 0 <= i < |u.constraints| :: u.constraints[i].referencedTableName == now[u][i].name
    {
      Covered(all, u);
      assert KeyAt(u, 0, now);
      forall i | 0 <= i < |u.constraints|
        ensures u.constraints[i].referencedTableName == now[u][i].name
      {
        assert KeyAt(u, i, now);
      }
    }
  }

  lemma CopiesArePlain(copies: seq<Table>, tables: seq<Table>, names: map<Table, string>, refs: Refs<Table>)
    requires Closed(refs) && names.Keys == refs.Keys && Within(tables, refs.Keys) && PlainSchemas(tables)
    requires CopiesFit(copies, Splits(tables, names, refs), names, refs)
    ensures PlainSchemas(copies + tables)
  {
    var splits := Splits(tables, names, refs);
    forall i | 0 <= i < |copies|
      ensures '.' !in copies[i].schema
    {
      assert CopyFits(copies[i], splits[i], names, refs) && splits[i] in splits;
    }
  }

  /** What the check does not touch. */
  ghost predicate LeftAlone(loader: TableLoader, ts: set<Table>, refs: Refs<Table>, keys: set<Constraint>)
    reads loader, loader.cache.Values, ts
  {
    && keys == ConstraintsOf(ts) && loader.Valid() && NamesFit(ts, refs)
    && MadeBy(ts, loader.made) && AllReadLinks(ts, loader.catalog)
  }

  lemma CheckedIsHeld(loader: TableLoader, ts: set<Table>, keys: set<Constraint>, all: set<Table>, now: Refs<Table>,
                      names: map<Table, string>, refs: Refs<Table>)
    requires LeftAlone(loader, ts, refs, keys) && loader.cache.Values == ts <= all
    requires Checking(all, now, names, refs) && names == TableNames(ts) && refs.Keys == ts
    requires NoneFlagged(keys) && ConstraintsOf(all) <= keys
    ensures Held(loader, all, now)
  {
    KeysStillNamed(ts, all, now, names, refs);
  }

  /** The loaded tables, their graph, and the list. */
  ghost predicate ReadyForCheck(loader: TableLoader, tables: seq<Table>, roots: seq<QName>, ts: set<Table>,
                                names: map<Table, string>, refs: Refs<Table>)
    reads loader, loader.cache.Values, ts, ConstraintsOf(ts)
  {
    && Held(loader, ts, refs) && ts == loader.cache.Values && NoneShared(ts) && names == TableNames(ts)
    && Lists(tables, ts, roots) && PlainSchemas(tables) && DistinctTables(tables)
    && AllReadLinks(ts, loader.catalog) && AllAsRead(ts, loader.catalog)
    && Faithful(loader.catalog, loader.cache, refs)
  }

  /** What was loaded is what the catalogue says. */
  ghost predicate Faithful(catalog: Catalog, cache: Cache, refs: Refs<Table>) {
    && HoldsLoadable(cache, catalog) && Mirrored(catalog, cache, refs, CatalogRefs(catalog))
    && KeysMirrored(refs, catalog, cache)
  }

  lemma CheckedRuns(loader: TableLoader, tables: seq<Table>, copies: seq<Table>, roots: seq<QName>, all: set<Table>,
                    now: Refs<Table>, names: map<Table, string>, refs: Refs<Table>)
    requires Held(loader, all, now) && Faithful(loader.catalog, loader.cache, refs)
    requires refs.Keys == loader.cache.Values && names == TableNames(refs.Keys) && Lists(tables, refs.Keys, roots)
    requires AllReadLinks(refs.Keys, loader.catalog) && AllSettled(Splits(tables, names, refs), names, refs, now)
    requires all == refs.Keys + Elements(copies) && CopiesFit(copies, Splits(tables, names, refs), names, refs)
    ensures AllKnown(loader.catalog, roots)
    ensures Runs(loader, copies + tables, all, now, Start(loader.catalog, roots))
  {
    CheckedMirrors(loader.catalog, loader.cache, refs, names, all, now, tables, copies, roots);
    RunIsStart(tables, copies, names, refs, loader.catalog, loader.cache, roots);
  }

  /** The check, with what it leaves as it was. */
  method CheckKept(loader: TableLoader, tables: seq<Table>, ghost ts: set<Table>, ghost names: map<Table, string>,
                   ghost refs: Refs<Table>, ghost keys: set<Constraint>)
    returns (r: Result<seq<Table>, PlanError>, ghost all: set<Table>, ghost now: Refs<Table>, ghost copies: seq<Table>)
    requires Held(loader, ts, refs) && NoneShared(ts) && names == TableNames(ts) && keys == ConstraintsOf(ts)
    requires Within(tables, ts) && AllReadLinks(ts, loader.catalog)
    modifies ConstraintsOf(ts)`referencedTable
    ensures r.Ok? <==> old(AllPass(tables, names, refs))
    ensures r.Ok? ==> r.value == copies + tables && fresh(copies) && all == ts + Elements(copies)
    ensures LeftAlone(loader, ts, refs, keys) && NoneFlagged(keys)
    ensures Checking(all, now, names, refs) && ConstraintsOf(all) <= keys
    ensures r.Ok? ==> NoneIn(copies, ts)
    ensures r.Ok? ==> CopiesFit(copies, Splits(tables, names, refs), names, refs)
    ensures r.Ok? && OneEach(ts) ==> AllSettled(Splits(tables, names, refs), names, refs, now)
  {
    ghost var alone, none := LeftAlone(loader, ts, refs, keys), NoneFlagged(keys);
    r, all, now, copies := CheckLoops(tables, ts, names, refs);
    assert alone == LeftAlone(loader, ts, refs, keys) && none == NoneFlagged(keys);
  }

  lemma CheckedList(copies: seq<Table>, tables: seq<Table>, cache: Cache, names: map<Table, string>,
                    refs: Refs<Table>)
    requires Closed(refs) && names.Keys == refs.Keys == cache.Values && Within(tables, refs.Keys)
    requires CacheNamed(cache) && PlainSchemas(tables) && DistinctTables(tables)
    requires CopiesFit(copies, Splits(tables, names, refs), names, refs)
    requires NoneIn(copies, refs.Keys)
    ensures PlainSchemas(copies + tables) && DistinctTables(copies + tables)
  {
    CachedDiffer(cache);
    CopiesArePlain(copies, tables, names, refs);
    RunIsDistinct(tables, copies, names, refs);
  }

  /** The list is ready for the joins. */
  ghost predicate ReadyForJoins(loader: TableLoader, run: seq<Table>, ts: set<Table>, refs: Refs<Table>, s: JoinState)
    reads loader, loader.cache.Values, ts, ConstraintsOf(ts), run`constraints
  {
    Runs(loader, run, ts, refs, s) && PlainSchemas(run) && DistinctTables(run)
  }

  lemma CheckedIsReady(loader: TableLoader, tables: seq<Table>, copies: seq<Table>, roots: seq<QName>, all: set<Table>,
                       now: Refs<Table>, names: map<Table, string>, refs: Refs<Table>, keys: set<Constraint>)
    requires LeftAlone(loader, refs.Keys, refs, keys) && Checking(all, now, names, refs) && NoneFlagged(keys)
    requires ConstraintsOf(all) <= keys && Faithful(loader.catalog, loader.cache, refs)
    requires refs.Keys == loader.cache.Values && names == TableNames(refs.Keys) && Lists(tables, refs.Keys, roots)
    requires AllSettled(Splits(tables, names, refs), names, refs, now)
    requires all == refs.Keys + Elements(copies) && CopiesFit(copies, Splits(tables, names, refs), names, refs)
    requires PlainSchemas(tables) && DistinctTables(tables) && NoneIn(copies, refs.Keys)
    ensures AllKnown(loader.catalog, roots)
    ensures ReadyForJoins(loader, copies + tables, all, now, Start(loader.catalog, roots))
  {
    CheckedIsHeld(loader, refs.Keys, keys, all, now, names, refs);
    CheckedRuns(loader, tables, copies, roots, all, now, names, refs);
    CheckedList(copies, tables, loader.cache, names, refs);
  }

  /** The check, by the catalogue, and what it leaves for the joins. */
  method CheckBeforeJoins(loader: TableLoader, tables: seq<Table>, ghost roots: seq<QName>, ghost ts: set<Table>,
                          ghost names: map<Table, string>, ghost refs: Refs<Table>)
    returns (r: Result<seq<Table>, PlanError>, ghost all: set<Table>, ghost now: Refs<Table>, ghost copies: seq<Table>)
    requires ReadyForCheck(loader, tables, roots, ts, names, refs)
    modifies ConstraintsOf(ts)`referencedTable
    ensures r.Ok? <==> AllAdmitted(loader.catalog, roots)
    ensures r.Ok? ==> r.value == copies + tables && fresh(copies)
    ensures r.Ok? ==> ReadyForJoins(loader, r.value, all, now, Start(loader.catalog, roots))
  {
    AllPassIffAdmitted(loader.catalog, loader.cache, refs, names, tables, roots);
    CachedDiffer(loader.cache);
    ghost var keys := ConstraintsOf(ts);
    r, all, now, copies := CheckKept(loader, tables, ts, names, refs, keys);
    if r.Ok? {
      CheckedIsReady(loader, tables, copies, roots, all, now, names, refs, keys);
    }
  }

  // The sort, as the joins left the keys.

  lemma RunNodeIsEntryNode(t: Table, run: seq<Table>)
    ensures RunNode(t, run) == EntryNode(EntryOf(t), EntriesOf(run))
  {
    var e, entries := EntryOf(t), EntriesOf(run);
    forall name
      ensures ListsName(run, name) <==> NamesTable(entries, name)
    {
      if ListsName(run, name) {
        var i :| 0 <= i < |run| && SameName(run[i].name, name);
        assert SameName(entries[i].table.table, name);
      }
    }
    forall c <- t.constraints
      ensures LinkIn(c) in e.links
    {
      var i :| 0 <= i < |t.constraints| && t.constraints[i] == c;
      assert e.links[i] == LinkIn(c);
    }
    forall name
      ensures name in RunNode(t, run).needs <==> name in EntryNode(e, entries).needs
    {
      if l :| l in e.links && NamesTable(entries, l.parent) && Lower(l.parent) == name {
        var i :| 0 <= i < |e.links| && e.links[i] == l;
        assert t.constraints[i] in t.constraints;
      }
      if c :| c in t.constraints && ListsName(run, c.referencedTableName) && Lower(c.referencedTableName) == name {
        assert LinkIn(c) in e.links;
      }
    }
  }

  lemma NodesAreEntryNodes(order: seq<Table>, run: seq<Table>)
    requires FlaggedForRun(run, run) && forall t <- order :: t in run
    ensures Nodes(order) == EntryNodes(EntriesOf(order), EntriesOf(run))
  {
    forall k | 0 <= k < |order|
      ensures Nodes(order)[k] == EntryNodes(EntriesOf(order), EntriesOf(run))[k]
    {
      assert order[k] in run;
      var i :| 0 <= i < |run| && run[i] == order[k];
      FlaggedNode(run[i], run);
      RunNodeIsEntryNode(order[k], run);
    }
  }

  lemma EntriesMultiset(a: seq<Table>, b: seq<Table>)
    requires multiset(a) == multiset(b)
    ensures multiset(EntriesOf(a)) == multiset(EntriesOf(b))
  {
    var m := map t | t in Elements(a) :: EntryOf(t);
    forall i | 0 <= i < |b|
      ensures b[i] in Elements(a)
    {
      assert b[i] in multiset(a);
    }
    MappedMultiset<Table, Entry>(m, a, EntriesOf(a), b, EntriesOf(b));
  }

  /** The sort ends exactly if the list can be ordered, and then with the tables
      of the list, each after those it waits for. */
  ghost predicate SortsAs(outcome: SortOutcome, run: seq<Entry>)
    reads if outcome.Sorted? then Elements(outcome.order) else {}
  {
    && (outcome.Sorted? <==> CanBeOrdered(EntryNodes(run, run)))
    && (outcome.Sorted? ==>
          && multiset(EntriesOf(outcome.order)) == multiset(run)
          && DepsFirst(EntryNodes(EntriesOf(outcome.order), run)))
  }

  lemma FlaggedSortsAs(outcome: SortOutcome, run: seq<Table>)
    requires FlaggedForRun(run, run) && (outcome.Sorted? <==> CanBeOrdered(Nodes(run)))
    requires outcome.Sorted? ==> multiset(outcome.order) == multiset(run) && DepsFirst(Nodes(outcome.order))
    ensures SortsAs(outcome, EntriesOf(run))
  {
    NodesAreEntryNodes(run, run);
    if outcome.Sorted? {
      forall t <- outcome.order
        ensures t in run
      {
        assert t in multiset(outcome.order);
      }
      NodesAreEntryNodes(outcome.order, run);
      EntriesMultiset(outcome.order, run);
    }
  }

  lemma NoFlagsAreJustified(all: set<Table>, graph: Refs<Table>, made: Made, run: seq<Table>)
    requires Remains(all, graph, made)
    ensures FlagsJustified(ConstraintsOf(all), run)
  {
  }

  method SortJoined(run: seq<Table>, ghost all: set<Table>, ghost graph: Refs<Table>, ghost made: Made)
    returns (outcome: SortOutcome)
    requires Remains(all, graph, made) && Within(run, all)
    modifies ConstraintsOf(all)`willBeInsertedDuringThisRun
    ensures SortsAs(outcome, EntriesOf(run)) && EntriesOf(run) == old(EntriesOf(run))
  {
    NoFlagsAreJustified(all, graph, made, run);
    outcome := FlagAndSort(run, all);
    FlaggedSortsAs(outcome, run);
  }

  /** The joins as far as they could be added, then the sort. */
  method AttachAndSort(loader: TableLoader, run: seq<Table>, joins: seq<VirtualJoin>, ids: nat -> (string, string),
                       ghost ts: set<Table>, ghost refs: Refs<Table>, ghost s: JoinState, ghost copies: seq<Table>,
                       ghost tables: seq<Table>)
    returns (outcome: SortOutcome)
    requires ReadyForJoins(loader, run, ts, refs, s) && run == copies + tables
    modifies loader`cache, loader`made, loader`earlier, loader.made.Keys, copies`constraints, tables`constraints
    ensures SortsAs(outcome, AfterJoins(loader.catalog, s, joins).run)
  {
    ghost var made := loader.made;
    loader.NoteEarlier();
    ghost var all, after;
    var error;
    error, all, after := AddVirtualFKs(loader, run, joins, ids, ts, refs, s);
    WithinMore(run, ts, all);
    forall c <- ConstraintsOf(all)
      ensures c in made || fresh(c)
    {
      assert Present(c);
    }
    outcome := SortJoined(run, all, after, loader.made);
  }

  /** From the loaded tables to the insertion order, with virtual keys. */
  method PlanWithJoins(loader: TableLoader, tables: seq<Table>, joins: seq<VirtualJoin>, ids: nat -> (string, string),
                       ghost roots: seq<QName>, ghost ts: set<Table>, ghost names: map<Table, string>,
                       ghost refs: Refs<Table>)
    returns (r: Result<SortOutcome, PlanError>)
    requires ReadyForCheck(loader, tables, roots, ts, names, refs)
    modifies loader`cache, loader`made, loader`earlier, loader.made.Keys, tables`constraints
    ensures r.Ok? <==> AllAdmitted(loader.catalog, roots)
    ensures r.Ok? ==> SortsAs(r.value, AfterJoins(loader.catalog, Start(loader.catalog, roots), joins).run)
  {
    ghost var all, now, copies;
    var checked;
    checked, all, now, copies := CheckBeforeJoins(loader, tables, roots, ts, names, refs);
    if checked.Err? {
      return Err(checked.error);
    }
    var outcome := AttachAndSort(loader, checked.value, joins, ids, all, now, Start(loader.catalog, roots), copies,
                                 tables);
    r := Ok(outcome);
  }

  lemma LoadedIsReadyForCheck(loader: TableLoader, roots: seq<QName>, tables: seq<Table>, ts: set<Table>,
                              names: map<Table, string>, refs: Refs<Table>)
    requires Complete(loader) && ts == loader.cache.Values && PlainSchemas(tables) && DistinctTables(tables)
    requires ReadyToPlan(loader.catalog, roots, tables, ts, names, refs)
    requires forall c <- ConstraintsOf(ts) :: c in loader.made
    ensures ReadyForCheck(loader, tables, roots, ts, names, refs)
  {
    CompleteHoldsLoadable(loader);
    LoadedMirrors(loader, refs);
    LoadedLinks(loader);
  }

  lemma RootsArePlain(tables: seq<Table>, database: string, names: seq<string>)
    requires NamesOfTables(tables) == Roots(database, names) && '.' !in database
    ensures PlainSchemas(tables)
  {
    forall i | 0 <= i < |tables|
      ensures '.' !in tables[i].schema
    {
      assert NameOf(tables[i]) == Roots(database, names)[i];
    }
  }

  /** The whole preparation with joins: it comes to what the catalogue, the list
      and the joins say. The names are the keys of a map, so that none comes twice. */
  method PrepareWithJoins(catalog: Catalog, database: string, names: seq<string>, skipFields: bool,
                          identifiers: set<string>, joins: seq<VirtualJoin>, ids: nat -> (string, string))
    returns (r: Result<SortOutcome, RunError>)
    requires PlainCatalog(catalog) && '.' !in database
    requires forall i, j | 0 <= i < j < |names| :: names[i] != names[j]
    ensures r.Err? && r.error.CannotLoad? <==> !AllLoadable(catalog, Roots(database, names))
    ensures r.Ok? <==> AllLoadable(catalog, Roots(database, names)) && AllAdmitted(catalog, Roots(database, names))
    ensures AllLoadable(catalog, Roots(database, names)) && DistinctlyNamed(catalog, Roots(database, names)) ==>
      (r.Ok? <==> forall q <- Roots(database, names) :: RootPasses(catalog, q))
    ensures r.Ok? ==>
      SortsAs(r.value, AfterJoins(catalog, Start(catalog, Roots(database, names)), joins).run)
  {
    ghost var ts, tableNames, refs;
    var loaded, loader;
    loaded, loader, ts, tableNames, refs := LoadListed(catalog, database, names, skipFields, identifiers);
    if loaded.Err? {
      return Err(CannotLoad(loaded.error));
    }
    ghost var roots := Roots(database, names);
    RootsArePlain(loaded.value, database, names);
    DistinctNamesDistinctTables(loaded.value, database, names);
    LoadedIsReadyForCheck(loader, roots, loaded.value, ts, tableNames, refs);
    if DistinctlyNamed(catalog, roots) {
      AllPassIffAdmitted(catalog, loader.cache, refs, tableNames, loaded.value, roots);
      AllPassIffRootsPass(loaded.value, ts, tableNames, refs, catalog, roots);
    }
    var planned := PlanWithJoins(loader, loaded.value, joins, ids, roots, ts, tableNames, refs);
    r := AsRun(planned);
  }
}
