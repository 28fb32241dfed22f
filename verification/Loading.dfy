/** Loading the listed tables with everything they reference (cmd/run.go), and
    leaving out the columns a query does not use. */
module Loading {
  import opened Text
  import opened Fields
  import opened ReferenceGraph
  import opened Schema
  import opened Loader

  lemma FinishedCacheIsWired(loader: TableLoader)
    requires loader.Valid() && AllFinished(loader.cache.Values, loader.cache, loader.catalog)
    ensures Wired(loader.cache.Values)
  {
    forall t, i | t in loader.cache.Values && 0 <= i < |t.constraints|
      ensures t.constraints[i].referencedTable != null && t.constraints[i].referencedTable in loader.cache.Values
    {
      assert Finished(t, loader.cache, loader.catalog);
      var def := loader.catalog[NameOf(t)];
      assert Linked(t.constraints[i], def.keys[i], def.fields, loader.cache, loader.catalog);
    }
  }

  /** A cache in which every table is complete holds everything its tables
      reach, and nothing they reach is broken. */
  lemma FinishedCacheHoldsReachable(loader: TableLoader, q: QName)
    requires loader.Valid() && AllFinished(loader.cache.Values, loader.cache, loader.catalog)
    requires q.Plain() && q.FullName() in loader.cache
    ensures forall p | Reaches(CatalogRefs(loader.catalog), q, p) :: p.FullName() in loader.cache
    ensures !Unloadable(loader.catalog, q)
  {
    var cache, catalog := loader.cache, loader.catalog;
    var refs := CatalogRefs(catalog);
    var s := set k <- cache :: NameOf(cache[k]);
    FullNameInjective(q, NameOf(cache[q.FullName()]));
    assert q in s;
    forall n, m | n in s && n in refs && m in refs[n] && m in refs
      ensures m in s
    {
      var k :| k in cache && NameOf(cache[k]) == n;
      var t := cache[k];
      assert Finished(t, cache, catalog);
      var i :| 0 <= i < |refs[n]| && refs[n][i] == m;
      assert Linked(t.constraints[i], catalog[n].keys[i], catalog[n].fields, cache, catalog);
      assert m.FullName() in cache;
      FullNameInjective(m, NameOf(cache[m.FullName()]));
    }
    forall p | Reaches(refs, q, p)
      ensures p.FullName() in cache && !HasBrokenKey(catalog, p)
    {
      var w: seq<QName> :| Connects(refs, q, p, w);
      ClosedSetHoldsReachable(refs, s, w);
      assert p in s;
      var k :| k in cache && NameOf(cache[k]) == p;
      assert Finished(cache[k], cache, catalog);
      forall i | 0 <= i < |catalog[p].keys|
        ensures Resolvable(catalog, catalog[p].keys[i])
      {
        assert Linked(cache[k].constraints[i], catalog[p].keys[i], catalog[p].fields, cache, catalog);
      }
    }
  }

  /** Some root leads to the table. */
  ghost predicate LedTo(catalog: Catalog, roots: seq<QName>, p: QName) {
    exists i | 0 <= i < |roots| :: Reaches(CatalogRefs(catalog), roots[i], p)
  }

  ghost predicate OnlyReachable(cache: Cache, catalog: Catalog, roots: seq<QName>) {
    forall k <- cache :: LedTo(catalog, roots, NameOf(cache[k]))
  }

  ghost predicate AllLoadable(catalog: Catalog, roots: seq<QName>) {
    forall i | 0 <= i < |roots| :: !Unloadable(catalog, roots[i])
  }

  /** The cache of a loader that has completed everything it was asked for. */
  ghost predicate Complete(loader: TableLoader)
    reads loader, loader.cache.Values, ConstraintsOf(loader.cache.Values)
  {
    loader.Valid() && AllFinished(loader.cache.Values, loader.cache, loader.catalog)
  }

  lemma CompleteInTwoSteps(loader: TableLoader, before: Cache)
    requires loader.Valid() && Extends(before, loader.cache)
    requires AllFinished(before.Values, before, loader.catalog)
    requires AllFinished(Newly(before, loader.cache), loader.cache, loader.catalog)
    ensures Complete(loader)
  {
    NewlyFromEmpty(before);
    NewlyFromEmpty(loader.cache);
    FinishedInTwoSteps(map[], before, loader.cache, loader.catalog);
  }

  /** Nothing behind a cached table is broken, as after loading without an error. */
  ghost predicate HoldsLoadable(cache: Cache, catalog: Catalog) {
    forall k <- cache :: !Unloadable(catalog, NameOf(cache[k]))
  }

  lemma CompleteHoldsLoadable(loader: TableLoader)
    requires Complete(loader)
    ensures HoldsLoadable(loader.cache, loader.catalog)
  {
    forall k <- loader.cache
      ensures !Unloadable(loader.catalog, NameOf(loader.cache[k]))
    {
      FinishedCacheHoldsReachable(loader, NameOf(loader.cache[k]));
    }
  }

  /** Each parent of a completed table is cached under its name. */
  lemma ParentIsCached(loader: TableLoader, t: Table, p: QName)
    requires loader.Valid() && Finished(t, loader.cache, loader.catalog) && p in CatalogRefs(loader.catalog)[NameOf(t)]
    ensures p.FullName() in loader.cache && NameOf(loader.cache[p.FullName()]) == p
  {
    var def := loader.catalog[NameOf(t)];
    var i :| 0 <= i < |def.keys| && def.keys[i].parent == p;
    assert Linked(t.constraints[i], def.keys[i], def.fields, loader.cache, loader.catalog);
    FullNameInjective(p, NameOf(loader.cache[p.FullName()]));
  }

  lemma FinishedIsNotBroken(t: Table, cache: Cache, catalog: Catalog)
    requires Finished(t, cache, catalog)
    ensures !HasBrokenKey(catalog, NameOf(t))
  {
    var def := catalog[NameOf(t)];
    forall i | 0 <= i < |def.keys|
      ensures Resolvable(catalog, def.keys[i])
    {
      assert Linked(t.constraints[i], def.keys[i], def.fields, cache, catalog);
    }
  }

  lemma {:induction false} NothingBrokenBehind(loader: TableLoader, before: Cache, k: string, w: seq<QName>)
    requires loader.Valid() && Extends(before, loader.cache) && HoldsLoadable(before, loader.catalog)
    requires AllFinished(Newly(before, loader.cache), loader.cache, loader.catalog)
    requires k in loader.cache && w != [] && w[0] == NameOf(loader.cache[k]) && IsWalk(CatalogRefs(loader.catalog), w)
    ensures !HasBrokenKey(loader.catalog, w[|w| - 1])
    decreases |w|
  {
    if k in before {
      assert Connects(CatalogRefs(loader.catalog), w[0], w[|w| - 1], w);
    } else {
      var t := loader.cache[k];
      assert t in Newly(before, loader.cache) && Finished(t, loader.cache, loader.catalog);
      if |w| == 1 {
        FinishedIsNotBroken(t, loader.cache, loader.catalog);
      } else {
        ParentIsCached(loader, t, w[1]);
        NothingBrokenBehind(loader, before, w[1].FullName(), w[1..]);
      }
    }
  }

  lemma LoadableGrows(loader: TableLoader, before: Cache)
    requires loader.Valid() && Extends(before, loader.cache) && HoldsLoadable(before, loader.catalog)
    requires AllFinished(Newly(before, loader.cache), loader.cache, loader.catalog)
    ensures HoldsLoadable(loader.cache, loader.catalog)
  {
    forall k, p | k in loader.cache && Reaches(CatalogRefs(loader.catalog), NameOf(loader.cache[k]), p)
      ensures !HasBrokenKey(loader.catalog, p)
    {
      var w: seq<QName> :| Connects(CatalogRefs(loader.catalog), NameOf(loader.cache[k]), p, w);
      NothingBrokenBehind(loader, before, k, w);
    }
  }

  lemma SkippedSameColumns(fields: seq<Field>, identifiers: set<string>, others: seq<Field>)
    requires SameColumns(fields, others)
    ensures SameColumns(Skipped(fields, identifiers), others)
  {
  }

  /** Leaving columns out of the insert does not touch what loading established. */
  method SkipColumns(loader: TableLoader, table: Table, identifiers: set<string>)
    requires Complete(loader) && table in loader.cache.Values
    modifies table`fields
    ensures Complete(loader) && table.fields == Skipped(old(table.fields), identifiers)
  {
    ghost var ts, cs := loader.cache.Values, table.constraints;
    assert Finished(table, loader.cache, loader.catalog);
    table.SkipBasedOnIdentifiers(identifiers);
    SkippedSameColumns(old(table.fields), identifiers, loader.catalog[NameOf(table)].fields);
    assert Finished(table, loader.cache, loader.catalog);
    forall t <- ts
      ensures Finished(t, loader.cache, loader.catalog)
    {
      assert t != table ==> old(Finished(t, loader.cache, loader.catalog));
    }
    assert loader.Valid() by {
      forall k <- loader.cache
        ensures Known(loader.cache[k], loader.catalog)
      {
        assert Finished(loader.cache[k], loader.cache, loader.catalog);
      }
    }
  }

  function Roots(database: string, names: seq<string>): (roots: seq<QName>)
    ensures |roots| == |names|
  {
    seq(|names|, i requires 0 <= i < |names| => QName(database, names[i]))
  }

  lemma OnlyReachableGrows(before: Cache, after: Cache, catalog: Catalog, roots: seq<QName>, q: QName)
    requires Extends(before, after) && OnlyReachable(before, catalog, roots)
    requires AllReachable(Newly(before, after), q, catalog)
    ensures OnlyReachable(after, catalog, roots + [q])
  {
    var more := roots + [q];
    forall k <- after
      ensures LedTo(catalog, more, NameOf(after[k]))
    {
      if k in before {
        var i :| 0 <= i < |roots| && Reaches(CatalogRefs(catalog), roots[i], NameOf(before[k]));
        assert more[i] == roots[i];
      } else {
        assert after[k] in Newly(before, after);
        assert more[|roots|] == q;
      }
    }
  }

  ghost predicate HoldsRoots(cache: Cache, roots: seq<QName>) {
    forall i | 0 <= i < |roots| :: roots[i].Plain() && roots[i].FullName() in cache
  }

  /** The cache holds exactly the tables that some root leads to. */
  ghost predicate HoldsExactlyReachable(cache: Cache, catalog: Catalog, roots: seq<QName>) {
    forall p: QName | p.Plain() :: p.FullName() in cache <==> LedTo(catalog, roots, p)
  }

  lemma HeldIsLedTo(loader: TableLoader, roots: seq<QName>, p: QName)
    requires loader.Valid() && OnlyReachable(loader.cache, loader.catalog, roots)
    requires p.Plain() && p.FullName() in loader.cache
    ensures LedTo(loader.catalog, roots, p)
  {
    FullNameInjective(p, NameOf(loader.cache[p.FullName()]));
  }

  lemma LedToIsHeld(loader: TableLoader, roots: seq<QName>, p: QName)
    requires Complete(loader) && HoldsRoots(loader.cache, roots) && LedTo(loader.catalog, roots, p)
    ensures p.FullName() in loader.cache
  {
    var i :| 0 <= i < |roots| && Reaches(CatalogRefs(loader.catalog), roots[i], p);
    FinishedCacheHoldsReachable(loader, roots[i]);
  }

  lemma HeldIffLedTo(loader: TableLoader, roots: seq<QName>, p: QName)
    requires Complete(loader) && OnlyReachable(loader.cache, loader.catalog, roots) && HoldsRoots(loader.cache, roots)
    requires p.Plain()
    ensures p.FullName() in loader.cache <==> LedTo(loader.catalog, roots, p)
  {
    if p.FullName() in loader.cache {
      HeldIsLedTo(loader, roots, p);
    }
    if LedTo(loader.catalog, roots, p) {
      LedToIsHeld(loader, roots, p);
    }
  }

  lemma CompleteHoldsExactlyReachable(loader: TableLoader, roots: seq<QName>)
    requires Complete(loader) && OnlyReachable(loader.cache, loader.catalog, roots) && HoldsRoots(loader.cache, roots)
    ensures HoldsExactlyReachable(loader.cache, loader.catalog, roots)
  {
    forall p: QName | p.Plain()
      ensures p.FullName() in loader.cache <==> LedTo(loader.catalog, roots, p)
    {
      HeldIffLedTo(loader, roots, p);
    }
  }

  lemma HeldRootsLoadable(loader: TableLoader, roots: seq<QName>)
    requires Complete(loader) && HoldsRoots(loader.cache, roots)
    ensures AllLoadable(loader.catalog, roots)
  {
    forall i | 0 <= i < |roots|
      ensures !Unloadable(loader.catalog, roots[i])
    {
      FinishedCacheHoldsReachable(loader, roots[i]);
    }
  }

  ghost predicate ListsRoots(tables: seq<Table>, cache: Cache, roots: seq<QName>) {
    && |tables| == |roots|
    && forall i | 0 <= i < |roots| :: roots[i].FullName() in cache && tables[i] == cache[roots[i].FullName()]
  }

  ghost predicate LoadedAll(loader: TableLoader, roots: seq<QName>, tables: seq<Table>)
    reads loader, loader.cache.Values, ConstraintsOf(loader.cache.Values)
  {
    && Complete(loader)
    && OnlyReachable(loader.cache, loader.catalog, roots)
    && HoldsRoots(loader.cache, roots)
    && ListsRoots(tables, loader.cache, roots)
  }

  lemma RootsOneMore(before: Cache, after: Cache, roots: seq<QName>, q: QName, tables: seq<Table>)
    requires Extends(before, after) && q.Plain() && q.FullName() in after
    requires HoldsRoots(before, roots) && ListsRoots(tables, before, roots)
    ensures HoldsRoots(after, roots + [q]) && ListsRoots(tables + [after[q.FullName()]], after, roots + [q])
  {
    var more, all := roots + [q], tables + [after[q.FullName()]];
    forall i | 0 <= i < |more|
      ensures more[i].Plain() && more[i].FullName() in after && all[i] == after[more[i].FullName()]
    {
      if i < |roots| {
        assert more[i] == roots[i] && all[i] == tables[i];
        assert roots[i].FullName() in before;
      } else {
        assert more[i] == q;
      }
    }
  }

  lemma LoadedOneMore(loader: TableLoader, before: Cache, roots: seq<QName>, q: QName, tables: seq<Table>, t: Table)
    requires Complete(loader) && Extends(before, loader.cache) && q.Plain()
    requires OnlyReachable(before, loader.catalog, roots) && HoldsRoots(before, roots)
    requires ListsRoots(tables, before, roots)
    requires AllReachable(Newly(before, loader.cache), q, loader.catalog)
    requires q.FullName() in loader.cache && t == loader.cache[q.FullName()]
    ensures LoadedAll(loader, roots + [q], tables + [t])
  {
    OnlyReachableGrows(before, loader.cache, loader.catalog, roots, q);
    RootsOneMore(before, loader.cache, roots, q, tables);
  }

  /** The cache got what `q` leads to, as far as it was lacking. */
  ghost predicate GrewBy(before: Cache, after: Cache, q: QName, t: Table, catalog: Catalog) {
    && Extends(before, after) && AllReachable(Newly(before, after), q, catalog)
    && q.FullName() in after && t == after[q.FullName()]
  }

  method LoadComplete(loader: TableLoader, q: QName) returns (r: Result<Table, LoadError>)
    requires Complete(loader) && q.Plain()
    modifies loader`cache, loader`made, loader`earlier
    ensures r.Ok? ==> Complete(loader) && GrewBy(old(loader.cache), loader.cache, q, r.value, loader.catalog)
    ensures r.Err? ==> Unloadable(loader.catalog, q)
    ensures old(loader.made.Keys) <= loader.made.Keys && fresh(loader.made.Keys - old(loader.made.Keys))
  {
    ghost var before := loader.cache;
    r := loader.Load(q);
    if r.Ok? {
      CompleteInTwoSteps(loader, before);
    }
  }

  lemma MadeByLoading(loader: TableLoader, k: string)
    requires loader.Valid() && k in loader.cache
    ensures loader.cache[k] in loader.made
  {
    assert Owns(loader.cache[k], loader.made);
  }

  method LoadBaseTable(loader: TableLoader, q: QName, skipFields: bool, identifiers: set<string>)
    returns (r: Result<Table, LoadError>)
    requires Complete(loader) && q.Plain()
    modifies loader`cache, loader`made, loader`earlier, loader.made.Keys
    ensures r.Ok? ==> Complete(loader) && GrewBy(old(loader.cache), loader.cache, q, r.value, loader.catalog)
    ensures r.Err? ==> Unloadable(loader.catalog, q)
    ensures old(loader.made.Keys) <= loader.made.Keys && fresh(loader.made.Keys - old(loader.made.Keys))
  {
    r := LoadComplete(loader, q);
    if r.Ok? && skipFields {
      MadeByLoading(loader, q.FullName());
      ghost var cache, made := loader.cache, loader.made;
      SkipColumns(loader, r.value, identifiers);
      assert loader.cache == cache && loader.made == made;
    }
  }

  /** One turn of the loading loop. */
  method LoadOneMore(loader: TableLoader, q: QName, skipFields: bool, identifiers: set<string>,
                     ghost roots: seq<QName>, ghost tables: seq<Table>)
    returns (r: Result<Table, LoadError>)
    requires LoadedAll(loader, roots, tables) && q.Plain()
    modifies loader`cache, loader`made, loader`earlier, loader.made.Keys
    ensures r.Ok? ==> LoadedAll(loader, roots + [q], tables + [r.value])
    ensures r.Err? ==> Unloadable(loader.catalog, q)
    ensures old(loader.made.Keys) <= loader.made.Keys && fresh(loader.made.Keys - old(loader.made.Keys))
  {
    ghost var before := loader.cache;
    r := LoadBaseTable(loader, q, skipFields, identifiers);
    if r.Ok? {
      LoadedOneMore(loader, before, roots, q, tables, r.value);
    }
  }

  lemma LoadedAllMeansLoadable(loader: TableLoader, roots: seq<QName>, tables: seq<Table>)
    requires LoadedAll(loader, roots, tables)
    ensures AllLoadable(loader.catalog, roots) && HoldsExactlyReachable(loader.cache, loader.catalog, roots)
  {
    CompleteHoldsExactlyReachable(loader, roots);
    HeldRootsLoadable(loader, roots);
  }

  /** Loads the named tables and, recursively, everything they reference. It
      succeeds exactly when all of that can be resolved, and then the cache
      holds exactly the tables reached, each once and completely linked. */
  method LoadTables(loader: TableLoader, database: string, names: seq<string>, skipFields: bool,
                    identifiers: set<string>)
    returns (r: Result<seq<Table>, LoadError>)
    requires loader.Valid() && loader.cache == map[] && loader.made == map[] && '.' !in database
    modifies loader`cache, loader`made, loader`earlier
    ensures fresh(loader.made.Keys)
    ensures r.Ok? <==> AllLoadable(loader.catalog, Roots(database, names))
    ensures r.Ok? ==>
      && Complete(loader)
      && HoldsExactlyReachable(loader.cache, loader.catalog, Roots(database, names))
      && ListsRoots(r.value, loader.cache, Roots(database, names))
  {
    ghost var roots := Roots(database, names);
    var tables: seq<Table> := [];
    for n := 0 to |names|
      invariant LoadedAll(loader, roots[..n], tables) && fresh(loader.made.Keys)
    {
      var loaded := LoadOneMore(loader, QName(database, names[n]), skipFields, identifiers, roots[..n], tables);
      TakeOneMore(roots, n);
      if loaded.Err? {
        assert Unloadable(loader.catalog, roots[n]);
        return Err(loaded.error);
      }
      tables := tables + [loaded.value];
    }
    TakeAll(roots);
    LoadedAllMeansLoadable(loader, roots, tables);
    r := Ok(tables);
  }
}
