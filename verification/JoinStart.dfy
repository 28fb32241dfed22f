/** The run between the loop check and the joins: the tables in memory stand as
    the catalogue and the list say. */
module JoinStart {
  import opened Text
  import opened Sequences
  import opened Fields
  import opened ReferenceGraph
  import opened Schema
  import opened Loader
  import opened Loading
  import opened LoopCheck
  import opened Pipeline
  import opened JoinSteps
  import opened JoinMirror
  import opened VirtualKeys

  // Before the check.

  lemma LoadedMirrors(loader: TableLoader, refs: Refs<Table>)
    requires Complete(loader) && GraphNow(loader.cache.Values, refs)
    ensures Mirrored(loader.catalog, loader.cache, refs, CatalogRefs(loader.catalog))
    ensures KeysMirrored(refs, loader.catalog, loader.cache)
  {
    var none: Cache, nothing: Refs<Table> := map[], map[];
    assert Newly(none, loader.cache) == {} + Newly(none, loader.cache) == loader.cache.Values;
    NewTablesMirror(loader, {}, nothing, none, refs);
    MirrorGrows(loader.catalog, none, nothing, CatalogRefs(loader.catalog), loader.cache, refs);
    forall t <- refs
      ensures KeysLead(refs, loader.catalog, loader.cache, t)
    {
      NewTableMirrors(loader, loader.cache.Values, loader.cache.Values, refs, t);
    }
  }

  /** The table's references are its keys' parents. */
  ghost predicate KeysLead(refs: Refs<Table>, catalog: Catalog, cache: Cache, t: Table) {
    t in refs && NameOf(t) in catalog && MirrorsKeys(refs[t], catalog[NameOf(t)].keys, cache)
  }

  ghost predicate KeysMirrored(refs: Refs<Table>, catalog: Catalog, cache: Cache) {
    forall t {:trigger KeysLead(refs, catalog, cache, t)} | t in refs :: KeysLead(refs, catalog, cache, t)
  }

  lemma HomeIsHomeKey(refs: Refs<Table>, catalog: Catalog, cache: Cache, names: map<Table, string>, t: Table)
    requires Closed(refs) && names == TableNames(refs.Keys) && KeysLead(refs, catalog, cache, t)
    ensures |refs[t]| == |catalog[NameOf(t)].keys|
    ensures Home<Table>(names, refs, t) == OwnNameKey(catalog[NameOf(t)].keys, t.name)
  {
    var keys := catalog[NameOf(t)].keys;
    forall i | 0 <= i < |keys|
      ensures names[refs[t][i]] == names[t] <==> keys[i].parent.table == t.name
    {
    }
  }

  lemma LeadsIntoLoopIffRepeats(catalog: Catalog, cache: Cache, refs: Refs<Table>, names: map<Table, string>, t: Table)
    requires Mirrored(catalog, cache, refs, CatalogRefs(catalog)) && names == TableNames(refs.Keys)
    requires KeysLead(refs, catalog, cache, t)
    ensures
      var keys := catalog[NameOf(t)].keys;
      LeadsIntoLoop<Table>(names, refs, t)
      <==> exists i | 0 <= i < |keys| :: RepeatsFrom(CatalogRefs(catalog), keys[i].parent)
  {
    var keys := catalog[NameOf(t)].keys;
    forall i | 0 <= i < |keys|
      ensures LoopsFrom<Table>(names, refs, refs[t][i]) <==> RepeatsFrom(CatalogRefs(catalog), keys[i].parent)
    {
      GuardAnswersForTables(catalog, cache, refs, CatalogRefs(catalog), refs[t][i]);
    }
    if LeadsIntoLoop<Table>(names, refs, t) {
      var i := LoopingReference<Table>(names, refs, t);
      assert RepeatsFrom(CatalogRefs(catalog), keys[i].parent);
    }
    if i :| 0 <= i < |keys| && RepeatsFrom(CatalogRefs(catalog), keys[i].parent) {
      LeadsIntoLoopVia<Table>(names, refs, t, i);
    }
  }

  lemma PassesIffAdmitted(catalog: Catalog, cache: Cache, refs: Refs<Table>, names: map<Table, string>, t: Table)
    requires Mirrored(catalog, cache, refs, CatalogRefs(catalog)) && names == TableNames(refs.Keys)
    requires KeysLead(refs, catalog, cache, t) && CopiesAsRead(t, catalog)
    ensures Passes(t, names, refs) <==> Admitted(catalog, NameOf(t))
  {
    HomeIsHomeKey(refs, catalog, cache, names, t);
    LeadsIntoLoopIffRepeats(catalog, cache, refs, names, t);
  }

  lemma AllPassIffAdmitted(catalog: Catalog, cache: Cache, refs: Refs<Table>, names: map<Table, string>,
                           tables: seq<Table>, roots: seq<QName>)
    requires Mirrored(catalog, cache, refs, CatalogRefs(catalog)) && KeysMirrored(refs, catalog, cache)
    requires names == TableNames(refs.Keys) && Lists(tables, refs.Keys, roots) && AllAsRead(refs.Keys, catalog)
    ensures AllKnown(catalog, roots) && (AllPass(tables, names, refs) <==> AllAdmitted(catalog, roots))
  {
    forall i | 0 <= i < |tables|
      ensures roots[i] in catalog && (Passes(tables[i], names, refs) <==> Admitted(catalog, roots[i]))
    {
      assert KeysLead(refs, catalog, cache, tables[i]) && CopiesAsRead(tables[i], catalog);
      PassesIffAdmitted(catalog, cache, refs, names, tables[i]);
    }
  }

  // After the check.

  lemma {:induction false} SplitsAreListed(tables: seq<Table>, names: map<Table, string>, refs: Refs<Table>, t: Table)
    requires Closed(refs) && names.Keys == refs.Keys && t in refs && forall x <- tables :: x in refs
    ensures t in Splits(tables, names, refs) <==> t in tables && HasHome<Table>(names, refs, t)
  {
    if tables != [] {
      var rest, last := tables[..|tables| - 1], tables[|tables| - 1];
      assert forall x <- rest :: x in tables;
      SplitsAreListed(rest, names, refs, t);
      assert tables == rest + [last];
      SplitsSnoc(rest, last, names, refs);
    }
  }

  lemma CachedDiffer(cache: Cache)
    requires CacheNamed(cache)
    ensures OneEach(cache.Values)
  {
    forall t, u | t in cache.Values && u in cache.Values && Alike(t, u)
      ensures t == u
    {
      var k :| k in cache && cache[k] == t;
      var l :| l in cache && cache[l] == u;
      assert k == l;
    }
  }

  lemma ListedIffRoot(tables: seq<Table>, ts: set<Table>, roots: seq<QName>, t: Table)
    requires OneEach(ts) && Lists(tables, ts, roots) && t in ts
    ensures t in tables <==> NameOf(t) in roots
  {
    if t in tables {
      ListedName(tables, roots, t);
    }
    if NameOf(t) in roots {
      var u := RootOf(tables, ts, roots, NameOf(t));
      assert Alike(t, u);
    }
  }

  /** A table the check left alone. */
  lemma KeptTableMirrors(catalog: Catalog, cache: Cache, refs: Refs<Table>, now: Refs<Table>, roots: seq<QName>,
                         t: Table)
    requires KeysLead(refs, catalog, cache, t) && t in now && now[t] == refs[t]
    requires !(NameOf(t) in roots && NamesItself(catalog, NameOf(t)))
    ensures Below(now, CheckedRefs(catalog, roots), t) && Whole(cache, now, CheckedRefs(catalog, roots), t)
  {
    var keys := catalog[NameOf(t)].keys;
    assert CheckedRefs(catalog, roots)[NameOf(t)] == Parents(keys);
    forall q <- Parents(keys)
      ensures exists p <- now[t] :: NameOf(p) == q
    {
      var i :| 0 <= i < |keys| && keys[i].parent == q;
      assert now[t][i] in now[t];
    }
    forall p <- now[t]
      ensures NameOf(p) in Parents(keys) && p in cache.Values
    {
      var i :| 0 <= i < |now[t]| && now[t][i] == p;
      assert Parents(keys)[i] == NameOf(p);
    }
  }

  /** A table the check split. */
  lemma SplitTableMirrors(catalog: Catalog, cache: Cache, refs: Refs<Table>, names: map<Table, string>,
                          now: Refs<Table>, roots: seq<QName>, t: Table)
    requires Closed(refs) && names == TableNames(refs.Keys) && KeysLead(refs, catalog, cache, t)
    requires Settled(t, true, names, refs, now) && NameOf(t) in roots && NamesItself(catalog, NameOf(t))
    ensures Below(now, CheckedRefs(catalog, roots), t) && HomeEdge(now, t)
  {
    HomeIsHomeKey(refs, catalog, cache, names, t);
    var keys, h := catalog[NameOf(t)].keys, Home<Table>(names, refs, t);
    var checked := CheckedRefs(catalog, roots)[NameOf(t)];
    assert checked[h] == NameOf(t) && now[t][h] in now[t];
    forall p <- now[t]
      ensures NameOf(p) in checked
    {
      var i :| 0 <= i < |now[t]| && now[t][i] == p;
      if !Alike(p, t) {
        assert checked[i] == keys[i].parent == NameOf(p);
      }
    }
  }

  lemma OriginalMirrors(catalog: Catalog, cache: Cache, refs: Refs<Table>, names: map<Table, string>, now: Refs<Table>,
                        tables: seq<Table>, roots: seq<QName>, t: Table)
    requires Closed(refs) && names == TableNames(refs.Keys) && KeysLead(refs, catalog, cache, t)
    requires OneEach(refs.Keys) && Lists(tables, refs.Keys, roots)
    requires AllSettled(Splits(tables, names, refs), names, refs, now)
    ensures Below(now, CheckedRefs(catalog, roots), t) && WholeOrHome(cache, now, CheckedRefs(catalog, roots), t)
    ensures t in Splits(tables, names, refs) ==> HomeEdge(now, t)
  {
    var splits := Splits(tables, names, refs);
    SplitsAreListed(tables, names, refs, t);
    ListedIffRoot(tables, refs.Keys, roots, t);
    HomeIsHomeKey(refs, catalog, cache, names, t);
    assert Settled(t, t in splits, names, refs, now);
    if t in splits {
      SplitTableMirrors(catalog, cache, refs, names, now, roots, t);
    } else {
      KeptTableMirrors(catalog, cache, refs, now, roots, t);
    }
  }

  /** A copy references what its table references, the key that led home aside. */
  lemma CopyIsBelow(all: set<Table>, now: Refs<Table>, graph: Refs<QName>, copy: Table, t: Table, h: nat)
    requires GraphNow(all, now) && copy in all && t in all && h < |t.constraints| && IsCopy(copy, t, h)
    requires Below(now, graph, t)
    ensures Below(now, graph, copy)
  {
    assert KeyAt(copy, 0, now);
    forall p <- now[copy]
      ensures p in now[t]
    {
      var j :| 0 <= j < |now[copy]| && now[copy][j] == p;
      var i := if j < h then j else j + 1;
      assert KeyAt(copy, j, now) && KeyAt(t, i, now);
      assert copy.constraints[j] == t.constraints[i];
    }
  }

  /** The tables after the check reference each other as the catalogue says, but
      for the split ones, which reference their copies. */
  lemma CheckedMirrors(catalog: Catalog, cache: Cache, refs: Refs<Table>, names: map<Table, string>, all: set<Table>,
                       now: Refs<Table>, tables: seq<Table>, copies: seq<Table>, roots: seq<QName>)
    requires Mirrored(catalog, cache, refs, CatalogRefs(catalog)) && KeysMirrored(refs, catalog, cache)
    requires refs.Keys == cache.Values && names == TableNames(refs.Keys) && Lists(tables, refs.Keys, roots)
    requires AllSettled(Splits(tables, names, refs), names, refs, now)
    requires GraphNow(all, now) && all == refs.Keys + Elements(copies)
    requires CopiesFit(copies, Splits(tables, names, refs), names, refs)
    ensures Mirrored(catalog, cache, now, CheckedRefs(catalog, roots))
  {
    var graph, splits := CheckedRefs(catalog, roots), Splits(tables, names, refs);
    CachedDiffer(cache);
    forall t <- cache.Values
      ensures Below(now, graph, t) && WholeOrHome(cache, now, graph, t) && (t in splits ==> HomeEdge(now, t))
      ensures StandsFor(cache, t)
    {
      assert KeysLead(refs, catalog, cache, t);
      assert StandsFor(cache, t);
      OriginalMirrors(catalog, cache, refs, names, now, tables, roots, t);
    }
    forall t <- copies
      ensures Below(now, graph, t) && StandsFor(cache, t) && HomeEdge(now, cache[NameOf(t).FullName()])
    {
      var k :| 0 <= k < |copies| && copies[k] == t;
      assert CopyFits(copies[k], splits[k], names, refs) && splits[k] in splits;
      CopyMirrors(cache, all, now, graph, t, splits[k], Home<Table>(names, refs, splits[k]));
    }
    RootsAreCached(tables, cache, roots);
  }

  lemma CopyMirrors(cache: Cache, all: set<Table>, now: Refs<Table>, graph: Refs<QName>, copy: Table, t: Table, h: nat)
    requires GraphNow(all, now) && copy in all && t in all && h < |t.constraints| && IsCopy(copy, t, h)
    requires CacheNamed(cache) && t in cache.Values && Below(now, graph, t) && HomeEdge(now, t)
    ensures Below(now, graph, copy) && StandsFor(cache, copy) && HomeEdge(now, cache[NameOf(copy).FullName()])
  {
    CopyIsBelow(all, now, graph, copy, t, h);
    var k :| k in cache && cache[k] == t;
  }

  lemma RootsAreCached(tables: seq<Table>, cache: Cache, roots: seq<QName>)
    requires CacheNamed(cache) && Lists(tables, cache.Values, roots)
    ensures forall q <- roots :: q.FullName() in cache
  {
    forall i | 0 <= i < |roots|
      ensures roots[i].FullName() in cache
    {
      var k :| k in cache && cache[k] == tables[i];
    }
  }

  // The lists of keys.

  /** The table's keys are the catalogue's, in order. */
  ghost predicate ReadLinks(t: Table, catalog: Catalog)
    reads t`constraints
  {
    NameOf(t) in catalog && LinksIn(t.constraints) == LinksOf(catalog[NameOf(t)].keys)
  }

  ghost predicate AllReadLinks(ts: set<Table>, catalog: Catalog)
    reads ts`constraints
  {
    forall t {:trigger ReadLinks(t, catalog)} | t in ts :: ReadLinks(t, catalog)
  }

  lemma LoadedLinks(loader: TableLoader)
    requires Complete(loader)
    ensures AllReadLinks(loader.cache.Values, loader.catalog)
  {
    forall t <- loader.cache.Values
      ensures ReadLinks(t, loader.catalog)
    {
      assert Finished(t, loader.cache, loader.catalog);
      var def := loader.catalog[NameOf(t)];
      forall i | 0 <= i < |def.keys|
        ensures LinkIn(t.constraints[i]) == LinkOf(def.keys[i])
      {
        assert Linked(t.constraints[i], def.keys[i], def.fields, loader.cache, loader.catalog);
      }
    }
  }

  lemma CopyIsEntry(copy: Table, t: Table, h: nat, catalog: Catalog)
    requires ReadLinks(t, catalog) && h < |t.constraints| && IsCopy(copy, t, h)
    ensures h < |catalog[NameOf(t)].keys|
    ensures
      var keys := catalog[NameOf(t)].keys;
      EntryOf(copy) == Entry(NameOf(t), LinksOf(keys[..h] + keys[h + 1..]))
  {
    var keys, cs := catalog[NameOf(t)].keys, t.constraints;
    assert |LinksIn(cs)| == |LinksOf(keys)|;
    forall j | 0 <= j < |copy.constraints|
      ensures LinkIn(copy.constraints[j]) == LinkOf((keys[..h] + keys[h + 1..])[j])
    {
      var i := if j < h then j else j + 1;
      assert copy.constraints[j] == cs[i] && (keys[..h] + keys[h + 1..])[j] == keys[i];
      assert LinksIn(cs)[i] == LinksOf(keys)[i];
    }
  }

  lemma EntriesOfBoth(a: seq<Table>, b: seq<Table>)
    ensures EntriesOf(a + b) == EntriesOf(a) + EntriesOf(b)
  {
  }

  lemma CopyEntriesSnoc(catalog: Catalog, roots: seq<QName>, q: QName)
    requires AllKnown(catalog, roots) && q in catalog
    ensures AllKnown(catalog, roots + [q])
    ensures CopyEntries(catalog, roots + [q]) == CopyEntry(catalog, q) + CopyEntries(catalog, roots)
  {
    assert (roots + [q])[..|roots|] == roots;
  }

  /** The copy of the last table, if it has one, stands first. */
  lemma LastCopy(tables: seq<Table>, last: Table, copies: seq<Table>, names: map<Table, string>, refs: Refs<Table>,
                 catalog: Catalog, cache: Cache)
    returns (others: seq<Table>)
    requires Closed(refs) && names == TableNames(refs.Keys) && KeysLead(refs, catalog, cache, last)
    requires ReadLinks(last, catalog) && Within(tables, refs.Keys)
    requires CopiesFit(copies, Splits(tables + [last], names, refs), names, refs)
    ensures CopiesFit(others, Splits(tables, names, refs), names, refs)
    ensures EntriesOf(copies) == CopyEntry(catalog, NameOf(last)) + EntriesOf(others)
  {
    HomeIsHomeKey(refs, catalog, cache, names, last);
    SplitsSnoc(tables, last, names, refs);
    others := copies;
    if HasHome<Table>(names, refs, last) {
      FirstCopyIsEntry(copies, last, Splits(tables, names, refs), names, refs, catalog);
      others := copies[1..];
    } else {
      assert CopyEntry(catalog, NameOf(last)) == [];
      NoneBefore(EntriesOf(copies));
    }
  }

  lemma NamesSnoc(tables: seq<Table>, t: Table)
    ensures NamesOfTables(tables + [t]) == NamesOfTables(tables) + [NameOf(t)]
  {
  }

  lemma {:induction false} CopiesAreEntries(tables: seq<Table>, copies: seq<Table>, names: map<Table, string>,
                                            refs: Refs<Table>, catalog: Catalog, cache: Cache)
    requires Closed(refs) && names == TableNames(refs.Keys) && KeysMirrored(refs, catalog, cache)
    requires AllReadLinks(refs.Keys, catalog) && Within(tables, refs.Keys)
    requires CopiesFit(copies, Splits(tables, names, refs), names, refs)
    ensures AllKnown(catalog, NamesOfTables(tables))
    ensures EntriesOf(copies) == CopyEntries(catalog, NamesOfTables(tables))
    decreases |tables|
  {
    if tables == [] {
      assert NamesOfTables(tables) == [] && copies == [];
    } else {
      var rest, last := tables[..|tables| - 1], tables[|tables| - 1];
      assert tables == rest + [last];
      NamesSnoc(rest, last);
      assert KeysLead(refs, catalog, cache, last) && ReadLinks(last, catalog);
      var others := LastCopy(rest, last, copies, names, refs, catalog, cache);
      CopiesAreEntries(rest, others, names, refs, catalog, cache);
      CopyEntriesSnoc(catalog, NamesOfTables(rest), NameOf(last));
    }
  }

  lemma FirstCopyIsEntry(copies: seq<Table>, t: Table, splits: seq<Table>, names: map<Table, string>,
                         refs: Refs<Table>, catalog: Catalog)
    requires Closed(refs) && names.Keys == refs.Keys && CopiesFit(copies, [t] + splits, names, refs)
    requires t in refs && ReadLinks(t, catalog)
    ensures CopiesFit(copies[1..], splits, names, refs)
    requires Home<Table>(names, refs, t) == OwnNameKey(catalog[NameOf(t)].keys, t.name)
    ensures EntriesOf(copies) == CopyEntry(catalog, NameOf(t)) + EntriesOf(copies[1..])
  {
    assert CopyFits(copies[0], t, names, refs);
    CopyIsEntry(copies[0], t, Home<Table>(names, refs, t), catalog);
    forall k | 0 <= k < |splits|
      ensures CopyFits(copies[1..][k], splits[k], names, refs)
    {
      assert CopyFits(copies[k + 1], ([t] + splits)[k + 1], names, refs);
    }
  }

  lemma TablesAreEntries(tables: seq<Table>, ts: set<Table>, catalog: Catalog, roots: seq<QName>)
    requires AllReadLinks(ts, catalog) && Lists(tables, ts, roots) && AllKnown(catalog, roots)
    ensures EntriesOf(tables) == RootEntries(catalog, roots)
  {
    forall i | 0 <= i < |tables|
      ensures EntriesOf(tables)[i] == RootEntries(catalog, roots)[i]
    {
      assert ReadLinks(tables[i], catalog);
    }
  }

  lemma RunIsStart(tables: seq<Table>, copies: seq<Table>, names: map<Table, string>, refs: Refs<Table>,
                   catalog: Catalog, cache: Cache, roots: seq<QName>)
    requires Closed(refs) && names == TableNames(refs.Keys) && KeysMirrored(refs, catalog, cache)
    requires AllReadLinks(refs.Keys, catalog) && Lists(tables, refs.Keys, roots)
    requires CopiesFit(copies, Splits(tables, names, refs), names, refs)
    ensures AllKnown(catalog, roots) && EntriesOf(copies + tables) == Start(catalog, roots).run
  {
    CopiesAreEntries(tables, copies, names, refs, catalog, cache);
    TablesAreEntries(tables, refs.Keys, catalog, roots);
    EntriesOfBoth(copies, tables);
  }

  // The listed tables and their copies are different objects.

  lemma {:induction false} SplitsAreDistinct(tables: seq<Table>, names: map<Table, string>, refs: Refs<Table>)
    requires Closed(refs) && names.Keys == refs.Keys && Within(tables, refs.Keys) && DistinctTables(tables)
    ensures DistinctTables(Splits(tables, names, refs))
    decreases |tables|
  {
    if tables != [] {
      var rest, last := tables[..|tables| - 1], tables[|tables| - 1];
      assert tables == rest + [last];
      SplitsAreDistinct(rest, names, refs);
      SplitsSnoc(rest, last, names, refs);
      assert last !in rest;
      SplitsAreListed(rest, names, refs, last);
    }
  }

  lemma RunIsDistinct(tables: seq<Table>, copies: seq<Table>, names: map<Table, string>, refs: Refs<Table>)
    requires Closed(refs) && names.Keys == refs.Keys && Within(tables, refs.Keys) && DistinctTables(tables)
    requires OneEach(refs.Keys) && CopiesFit(copies, Splits(tables, names, refs), names, refs)
    requires NoneIn(copies, refs.Keys)
    ensures DistinctTables(copies + tables)
  {
    var splits := Splits(tables, names, refs);
    SplitsAreDistinct(tables, names, refs);
    forall i, j | 0 <= i < j < |copies|
      ensures copies[i] != copies[j]
    {
      assert CopyFits(copies[i], splits[i], names, refs) && CopyFits(copies[j], splits[j], names, refs);
      assert copies[i] == copies[j] ==> Alike(splits[i], splits[j]);
    }
  }

  lemma DistinctNamesDistinctTables(tables: seq<Table>, database: string, names: seq<string>)
    requires NamesOfTables(tables) == Roots(database, names)
    requires forall i, j | 0 <= i < j < |names| :: names[i] != names[j]
    ensures DistinctTables(tables)
  {
    forall i, j | 0 <= i < j < |tables|
      ensures tables[i] != tables[j]
    {
      assert NameOf(tables[i]) == Roots(database, names)[i] && NameOf(tables[j]) == Roots(database, names)[j];
    }
  }
}
