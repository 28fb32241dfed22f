/** Foreign keys that exist only for this run (db/constraint.go AddVirtualFKs). */
module VirtualKeys {
  import opened Text
  import opened Fields
  import opened ReferenceGraph
  import opened Schema
  import opened Loader
  import opened Loading
  import opened LoopCheck
  import opened VirtualEdges
  import opened VirtualJoins
  import opened JoinSteps
  import opened JoinMirror

  // What the objects say.

  function LinkIn(c: Constraint): Link {
    Link(c.referencedTableName, c.columnsName, c.referencedColumnsName)
  }

  function LinksIn(cs: seq<Constraint>): (links: seq<Link>)
    ensures |links| == |cs| && forall i | 0 <= i < |cs| :: links[i] == LinkIn(cs[i])
  {
    seq(|cs|, i requires 0 <= i < |cs| => LinkIn(cs[i]))
  }

  ghost function EntryOf(t: Table): Entry
    reads t`constraints
  {
    Entry(NameOf(t), LinksIn(t.constraints))
  }

  ghost function EntriesOf(ts: seq<Table>): (entries: seq<Entry>)
    reads ts`constraints
    ensures |entries| == |ts| && forall i | 0 <= i < |ts| :: entries[i] == EntryOf(ts[i])
  {
    if ts == [] then [] else [EntryOf(ts[0])] + EntriesOf(ts[1..])
  }

  /** A key of the table and the join lead from the same columns to the same: the
      left side of the join is the child, or the right side is. */
  predicate SameKey(t: Table, c: Constraint, vfk: VirtualJoin) {
    || (SameName(vfk.left.table, t.name) && SameName(vfk.right.table, c.referencedTableName)
        && IsSliceSimilar(c.columnsName, vfk.left.columns)
        && IsSliceSimilar(c.referencedColumnsName, vfk.right.columns))
    || (SameName(vfk.right.table, t.name) && SameName(vfk.left.table, c.referencedTableName)
        && IsSliceSimilar(c.columnsName, vfk.right.columns)
        && IsSliceSimilar(c.referencedColumnsName, vfk.left.columns))
  }

  /** Some key of a listed table already says what the join says, either way round. */
  predicate ShouldSkipVirtualFK(tables: seq<Table>, vfk: VirtualJoin)
    reads tables
  {
    exists t <- tables :: exists c <- t.constraints :: SameKey(t, c, vfk)
  }

  lemma SameKeyIff(t: Table, c: Constraint, join: VirtualJoin)
    ensures SameKey(t, c, join) <==> Says(t.name, LinkIn(c), join)
  {
  }

  lemma SkipIffCovered(tables: seq<Table>, join: VirtualJoin)
    ensures ShouldSkipVirtualFK(tables, join) <==> CoveredBy(EntriesOf(tables), join)
  {
    var run := EntriesOf(tables);
    if ShouldSkipVirtualFK(tables, join) {
      var t :| t in tables && exists c <- t.constraints :: SameKey(t, c, join);
      var c :| c in t.constraints && SameKey(t, c, join);
      var i :| 0 <= i < |tables| && tables[i] == t;
      var k :| 0 <= k < |t.constraints| && t.constraints[k] == c;
      SameKeyIff(t, c, join);
      assert run[i].table.table == t.name && run[i].links[k] == LinkIn(c);
    }
    if i, k :| 0 <= i < |run| && 0 <= k < |run[i].links| && Says(run[i].table.table, run[i].links[k], join) {
      SameKeyIff(tables[i], tables[i].constraints[k], join);
    }
  }

  /** Which side of the join is called parent does not matter for that. */
  lemma SkippingIsSymmetric(tables: seq<Table>, vfk: VirtualJoin)
    ensures ShouldSkipVirtualFK(tables, vfk) <==> ShouldSkipVirtualFK(tables, VirtualJoin(vfk.right, vfk.left))
  {
    var flipped := VirtualJoin(vfk.right, vfk.left);
    forall t <- tables, c <- t.constraints
      ensures SameKey(t, c, vfk) <==> SameKey(t, c, flipped)
    {
    }
  }

  // Building a key.

  function KeyFor(schema: string, parent: VirtualJoinPart, child: VirtualJoinPart, id: string): ForeignKey {
    var columns := if child.columns == [] then "" else Join(child.columns, '_');
    ForeignKey("VirtualFK_" + columns + id, QName(schema, parent.table), child.columns, parent.columns)
  }

  /** If nothing broken was cached, the key is not broken, and still nothing is. */
  ghost predicate Sound(before: Cache, after: Cache, catalog: Catalog, k: ForeignKey) {
    HoldsLoadable(before, catalog) ==> !Broken(catalog, k.parent, k.parentColumns) && HoldsLoadable(after, catalog)
  }

  /** The tables and their graph: each key is named after its target and not flagged yet. */
  ghost predicate Keyed(ts: set<Table>, refs: Refs<Table>)
    reads ts, ConstraintsOf(ts)
  {
    GraphNow(ts, refs) && NamesFit(ts, refs) && NoneFlagged(ConstraintsOf(ts))
  }

  /** The tables in memory, those of the cache among them. */
  ghost predicate Held(loader: TableLoader, ts: set<Table>, refs: Refs<Table>)
    reads loader, loader.cache.Values, ts, ConstraintsOf(ts)
  {
    loader.Valid() && Remains(ts, refs, loader.made) && loader.cache.Values <= ts
  }

  /** The keys of the tables are all made by the loader. */
  ghost predicate MadeBy(ts: set<Table>, made: Made)
    reads ts`constraints
  {
    forall c <- ConstraintsOf(ts) :: c in made
  }

  ghost predicate Remains(ts: set<Table>, refs: Refs<Table>, made: Made)
    reads ts, ConstraintsOf(ts)
  {
    Keyed(ts, refs) && MadeBy(ts, made)
  }

  lemma RemainsOfMore(all: set<Table>, grown: Refs<Table>, ts: set<Table>, refs: Refs<Table>, made: Made)
    requires Remains(all, grown, made) && ts <= all && refs.Keys == ts && Closed(refs) && Grows<Table>(refs, grown)
    ensures Remains(ts, refs, made)
  {
    forall t: Table, i: nat | t in ts
      ensures KeyAt(t, i, refs)
    {
      assert KeyAt(t, i, grown);
    }
  }

  lemma MadeByMore(ts: set<Table>, made: Made, more: Made)
    requires MadeBy(ts, made) && MadeMore(made, more)
    ensures MadeBy(ts, more)
  {
  }

  lemma UnionIsMade(ts: set<Table>, added: set<Table>, cache: Cache, made: Made, catalog: Catalog)
    requires MadeBy(ts, made) && CacheFits(cache, made, catalog) && added <= cache.Values
    ensures MadeBy(ts + added, made)
  {
    forall t, c | t in ts + added && c in t.constraints
      ensures c in made
    {
      if t in ts {
        Covered(ts, t);
      } else {
        var k :| k in cache && cache[k] == t;
        assert Owns(cache[k], made);
      }
    }
  }

  ghost predicate Fits(c: Constraint)
    reads c
  {
    c.referencedTable != null && c.referencedTableName == c.referencedTable.name && !c.willBeInsertedDuringThisRun
  }

  lemma NewTablesPoint(loader: TableLoader, added: set<Table>, t: Table, i: nat)
    requires loader.Valid() && AllFinished(added, loader.cache, loader.catalog) && t in added && i < |t.constraints|
    ensures Fits(t.constraints[i]) && t.constraints[i].referencedTable in loader.cache.Values
  {
    assert Finished(t, loader.cache, loader.catalog);
    var def := loader.catalog[NameOf(t)];
    assert Linked(t.constraints[i], def.keys[i], def.fields, loader.cache, loader.catalog);
    FullNameInjective(def.keys[i].parent, NameOf(t.constraints[i].referencedTable));
  }

  lemma UnionIsWired(ts: set<Table>, refs: Refs<Table>, added: set<Table>)
    requires GraphNow(ts, refs)
    requires forall t, i | t in added && 0 <= i < |t.constraints| ::
      t.constraints[i].referencedTable != null && t.constraints[i].referencedTable in ts + added
    ensures Wired(ts + added)
  {
    forall t, i | t in ts && 0 <= i < |t.constraints|
      ensures t.constraints[i].referencedTable != null && t.constraints[i].referencedTable in ts + added
    {
      assert KeyAt(t, i, refs);
    }
  }

  lemma SameInBoth(ts: set<Table>, refs: Refs<Table>, all: set<Table>, grown: Refs<Table>, t: Table)
    requires GraphNow(ts, refs) && GraphNow(all, grown) && ts <= all && t in ts
    ensures |refs[t]| == |t.constraints| && grown[t] == refs[t]
  {
    assert KeyAt(t, 0, refs) && KeyAt(t, 0, grown);
    forall i | 0 <= i < |refs[t]|
      ensures grown[t][i] == refs[t][i]
    {
      assert KeyAt(t, i, refs) && KeyAt(t, i, grown);
    }
  }

  lemma UnionGrows(ts: set<Table>, refs: Refs<Table>, all: set<Table>, grown: Refs<Table>)
    requires GraphNow(ts, refs) && GraphNow(all, grown) && ts <= all
    ensures Grows<Table>(refs, grown)
  {
    forall t <- refs
      ensures grown[t] == refs[t]
    {
      SameInBoth(ts, refs, all, grown, t);
    }
  }

  lemma UnionIsKeyed(ts: set<Table>, refs: Refs<Table>, added: set<Table>, grown: Refs<Table>)
    requires Keyed(ts, refs) && GraphNow(ts + added, grown)
    requires forall t, i | t in added && 0 <= i < |t.constraints| :: Fits(t.constraints[i])
    ensures Keyed(ts + added, grown)
  {
    forall t <- ts + added
      ensures |grown[t]| == |t.constraints|
      ensures forall i | 0 <= i < |t.constraints| :: t.constraints[i].referencedTableName == grown[t][i].name
    {
      assert KeyAt(t, 0, grown);
      if t in ts {
        SameInBoth(ts, refs, ts + added, grown, t);
      } else {
        forall i | 0 <= i < |t.constraints|
          ensures t.constraints[i].referencedTableName == grown[t][i].name
        {
          assert KeyAt(t, i, grown) && Fits(t.constraints[i]);
        }
      }
    }
    forall t, i | t in ts + added && 0 <= i < |t.constraints|
      ensures !t.constraints[i].willBeInsertedDuringThisRun
    {
      if t in ts {
        assert t.constraints[i] in t.constraints && t.constraints[i] in ConstraintsOf(ts);
      } else {
        assert Fits(t.constraints[i]);
      }
    }
  }

  lemma NewTableMirrors(loader: TableLoader, added: set<Table>, all: set<Table>, grown: Refs<Table>, t: Table)
    requires loader.Valid() && AllFinished(added, loader.cache, loader.catalog) && t in added
    requires GraphNow(all, grown) && t in all
    ensures NameOf(t) in loader.catalog && MirrorsKeys(grown[t], loader.catalog[NameOf(t)].keys, loader.cache)
  {
    assert Finished(t, loader.cache, loader.catalog) && KeyAt(t, 0, grown);
    var def := loader.catalog[NameOf(t)];
    forall i | 0 <= i < |def.keys|
      ensures grown[t][i] in loader.cache.Values && NameOf(grown[t][i]) == def.keys[i].parent
    {
      assert KeyAt(t, i, grown);
      assert Linked(t.constraints[i], def.keys[i], def.fields, loader.cache, loader.catalog);
      FullNameInjective(def.keys[i].parent, NameOf(grown[t][i]));
    }
  }

  lemma NewTablesMirror(loader: TableLoader, ts: set<Table>, refs: Refs<Table>, before: Cache, grown: Refs<Table>)
    requires loader.Valid() && Extends(before, loader.cache) && GraphNow(ts, refs)
    requires AllFinished(Newly(before, loader.cache), loader.cache, loader.catalog)
    requires GraphNow(ts + Newly(before, loader.cache), grown) && Grows<Table>(refs, grown)
    ensures GrownFrom(loader.catalog, before, refs, loader.cache, grown)
  {
    var added := Newly(before, loader.cache);
    forall t <- added
      ensures NameOf(t) in loader.catalog && MirrorsKeys(grown[t], loader.catalog[NameOf(t)].keys, loader.cache)
    {
      NewTableMirrors(loader, added, ts + added, grown, t);
    }
  }

  /** The tables a key brought along join the graph. */
  lemma GraphWithNewTables(loader: TableLoader, ts: set<Table>, refs: Refs<Table>, before: Cache)
    returns (all: set<Table>, grown: Refs<Table>)
    requires loader.Valid() && Keyed(ts, refs) && MadeBy(ts, loader.made)
    requires before.Values <= ts && Extends(before, loader.cache)
    requires AllFinished(Newly(before, loader.cache), loader.cache, loader.catalog)
    ensures Held(loader, all, grown) && ts <= all && GrownFrom(loader.catalog, before, refs, loader.cache, grown)
  {
    var added := Newly(before, loader.cache);
    all := ts + added;
    ValuesInTwoSteps(before, loader.cache);
    forall t, i | t in added && 0 <= i < |t.constraints|
      ensures Fits(t.constraints[i]) && t.constraints[i].referencedTable in ts + added
    {
      NewTablesPoint(loader, added, t, i);
    }
    UnionIsWired(ts, refs, added);
    grown := TableRefs(all);
    RefsAreGraphNow(all, grown);
    UnionGrows(ts, refs, all, grown);
    NewTablesMirror(loader, ts, refs, before, grown);
    UnionIsKeyed(ts, refs, added, grown);
    UnionIsMade(ts, added, loader.cache, loader.made, loader.catalog);
  }

  method NewKey(loader: TableLoader, table: Table, key: ForeignKey) returns (c: Constraint)
    requires loader.Valid()
    modifies loader`made
    ensures loader.Valid() && MadeMore(old(loader.made), loader.made)
    ensures fresh(c) && Described(c, key) && Blank(c) && Notes(loader, table, c)
  {
    c := new Constraint(key.name, key.parent.schema, key.parent.table, key.columns, key.parentColumns);
    loader.made := loader.made[c := NameOf(table)];
    forall k <- loader.cache
      ensures Owns(loader.cache[k], loader.made)
    {
      assert old(Owns(loader.cache[k], loader.made));
    }
  }

  lemma MadeMoreTwice(a: Made, b: Made, c: Made)
    requires MadeMore(a, b) && MadeMore(b, c)
    ensures MadeMore(a, c)
  {
  }

  /** The key object, with everything loaded for it. */
  method MakeKey(loader: TableLoader, table: Table, key: ForeignKey) returns (r: Result<Constraint, LoadError>)
    requires loader.Valid() && key.parent.Plain()
    modifies loader`cache, loader`made
    ensures loader.Grown(old(loader.cache), old(loader.made))
    ensures r.Ok? ==> loader.Behind(old(loader.cache), key.parent) && fresh(r.value) && Notes(loader, table, r.value)
    ensures r.Ok? ==> Linked(r.value, key, table.fields, loader.cache, loader.catalog)
    ensures r.Err? ==> Broken(loader.catalog, key.parent, key.parentColumns)
  {
    ghost var start := loader.made;
    var c := NewKey(loader, table, key);
    ghost var middle := loader.made;
    var error := loader.Resolve(table, c, key);
    MadeMoreTwice(start, middle, loader.made);
    r := if error.Some? then Err(error.value) else Ok(c);
  }

  /** The loader knows the key as one made for the table. */
  ghost predicate Notes(loader: TableLoader, table: Table, c: Constraint)
    reads loader`made
  {
    c in loader.made && loader.made[c] == NameOf(table)
  }

  /** Reads the parent, with everything it references, if it is not in memory
      yet. An unknown child column goes unnoticed, an unknown parent column does not. It
      fails exactly for a broken key, as long as nothing broken was cached before. */
  method NewConstraintFromVirtualFK(loader: TableLoader, table: Table, left: VirtualJoinPart, right: VirtualJoinPart,
                                    id: string, ghost ts: set<Table>, ghost refs: Refs<Table>)
    returns (r: Result<Constraint, LoadError>, ghost all: set<Table>, ghost grown: Refs<Table>)
    requires Held(loader, ts, refs) && '.' !in table.schema
    modifies loader`cache, loader`made
    ensures loader.Valid()
    ensures r.Ok? ==>
      && Held(loader, all, grown) && ts <= all
      && GrownFrom(loader.catalog, old(loader.cache), refs, loader.cache, grown)
      && fresh(r.value) && Notes(loader, table, r.value)
      && Linked(r.value, KeyFor(table.schema, left, right, id), table.fields, loader.cache, loader.catalog)
    ensures r.Err? ==>
      Broken(loader.catalog, QName(table.schema, left.table), left.columns) && Remains(ts, refs, loader.made)
    ensures r.Ok? ==> Sound(old(loader.cache), loader.cache, loader.catalog, KeyFor(table.schema, left, right, id))
    ensures r.Ok? ==>
      var c := r.value;
      && QName(c.referencedTableSchema, c.referencedTableName) == QName(table.schema, left.table)
      && c.columnsName == right.columns && c.referencedColumnsName == left.columns
      && (right.columns != [] ==> c.constraintName == "VirtualFK_" + Join(right.columns, '_') + id)
  {
    ghost var before, made, remains := loader.cache, loader.made, Remains(ts, refs, loader.made);
    all, grown := ts, refs;
    r := MakeKey(loader, table, KeyFor(table.schema, left, right, id));
    assert remains == Remains(ts, refs, made);
    MadeByMore(ts, made, loader.made);
    if r.Ok? {
      all, grown := GraphWithNewTables(loader, ts, refs, before);
      KeyIsNotBroken(loader, before, r.value, KeyFor(table.schema, left, right, id), table.fields);
    }
  }

  lemma KeyIsNotBroken(loader: TableLoader, before: Cache, c: Constraint, k: ForeignKey, fields: seq<Field>)
    requires loader.Valid() && Extends(before, loader.cache) && k.parent.Plain()
    requires AllFinished(Newly(before, loader.cache), loader.cache, loader.catalog)
    requires Linked(c, k, fields, loader.cache, loader.catalog)
    ensures Sound(before, loader.cache, loader.catalog, k)
  {
    NamedAsLinked(loader, c, k, fields);
    if HoldsLoadable(before, loader.catalog) {
      LoadableGrows(loader, before);
      assert k.parent.FullName() in loader.cache;
    }
  }

  method Append(loader: TableLoader, table: Table, c: Constraint)
    requires loader.Valid() && Notes(loader, table, c)
    modifies table`constraints
    ensures loader.Valid() && table.constraints == old(table.constraints) + [c]
  {
    table.constraints := table.constraints + [c];
    forall k <- loader.cache
      ensures Owns(loader.cache[k], loader.made)
    {
      assert old(Owns(loader.cache[k], loader.made));
    }
  }

  /** The targets of each table's keys, before one more is appended. */
  ghost predicate Lacks(ts: set<Table>, refs: Refs<Table>, table: Table, cs: seq<Constraint>, c: Constraint)
    reads ts, ConstraintsOf(ts), cs
  {
    && refs.Keys == ts && Closed(refs) && table in ts && table.constraints == cs + [c] && |refs[table]| == |cs|
    && (forall i | 0 <= i < |cs| :: cs[i].referencedTable == refs[table][i])
    && forall t: Table, i: nat {:trigger KeyAt(t, i, refs)} | t in ts && t != table ::
         (Covered(ts, t); KeyAt(t, i, refs))
  }

  lemma EdgeAdded(ts: set<Table>, refs: Refs<Table>, table: Table, cs: seq<Constraint>, c: Constraint)
    requires Lacks(ts, refs, table, cs, c) && c.referencedTable != null && c.referencedTable in ts
    ensures GraphNow(ts, AddEdge<Table>(refs, table, c.referencedTable))
  {
    var more := AddEdge<Table>(refs, table, c.referencedTable);
    forall t: Table, i: nat | t in ts
      ensures KeyAt(t, i, more)
    {
      if t != table {
        assert KeyAt(t, i, refs);
      }
    }
  }

  lemma StillNamed(ts: set<Table>, refs: Refs<Table>, table: Table, cs: seq<Constraint>, c: Constraint)
    requires Lacks(ts, refs, table, cs, c) && Fits(c) && NoneFlagged(ConstraintsOf(ts) - {c})
    requires forall i | 0 <= i < |cs| :: cs[i].referencedTableName == refs[table][i].name
    requires NamesFit(ts - {table}, refs)
    ensures NamesFit(ts, AddEdge<Table>(refs, table, c.referencedTable)) && NoneFlagged(ConstraintsOf(ts))
  {
  }

  lemma MadeWithOneMore(ts: set<Table>, table: Table, cs: seq<Constraint>, c: Constraint, made: Made)
    requires table.constraints == cs + [c] && c in made && forall d <- cs :: d in made
    requires MadeBy(ts - {table}, made)
    ensures MadeBy(ts, made)
  {
    forall t, d | t in ts && d in t.constraints
      ensures d in made
    {
      assert t != table ==> d in ConstraintsOf(ts - {table});
    }
  }

  /** One more key on the table's list is one more edge in the graph. */
  method Attach(loader: TableLoader, table: Table, c: Constraint, ghost ts: set<Table>, ghost refs: Refs<Table>)
    requires Held(loader, ts, refs) && Notes(loader, table, c)
    requires table in ts && Fits(c) && c.referencedTable in ts
    modifies table`constraints
    ensures table.constraints == old(table.constraints) + [c]
    ensures Held(loader, ts, AddEdge<Table>(refs, table, c.referencedTable))
  {
    ghost var cs := table.constraints;
    Covered(ts, table);
    ghost var others := MadeBy(ts - {table}, loader.made);
    Append(loader, table, c);
    assert others == MadeBy(ts - {table}, loader.made);
    MadeWithOneMore(ts, table, cs, c, loader.made);
    assert Lacks(ts, refs, table, cs, c) by {
      assert old(KeyAt(table, 0, refs));
      forall i | 0 <= i < |cs|
        ensures cs[i].referencedTable == refs[table][i]
      {
        assert old(KeyAt(table, i, refs));
      }
      forall t: Table, i: nat | t in ts && t != table
        ensures KeyAt(t, i, refs)
      {
        assert old(KeyAt(t, i, refs));
      }
    }
    EdgeAdded(ts, refs, table, cs, c);
    StillNamed(ts, refs, table, cs, c);
  }

  /** Where the first listed table of that name stands; the length if there is none. */
  function IndexOfName(tables: seq<Table>, name: string): (i: nat)
    ensures i <= |tables|
  {
    if tables == [] || SameName(tables[0].name, name) then 0 else 1 + IndexOfName(tables[1..], name)
  }

  lemma {:induction false} IndexOfNameIsFirst(tables: seq<Table>, name: string)
    ensures
      var i := IndexOfName(tables, name);
      (i < |tables| ==> SameName(tables[i].name, name)) && forall k | 0 <= k < i :: !SameName(tables[k].name, name)
  {
    if tables != [] && !SameName(tables[0].name, name) {
      IndexOfNameIsFirst(tables[1..], name);
    }
  }

  /** The listed table that a join's key goes to, if there is one. */
  function ChildOf(tables: seq<Table>, name: string): (child: set<Table>)
    ensures forall t <- child :: t in tables
  {
    var i := IndexOfName(tables, name);
    if i < |tables| then {tables[i]} else {}
  }

  ghost predicate PlainSchemas(tables: seq<Table>) {
    forall i | 0 <= i < |tables| :: '.' !in tables[i].schema
  }

  lemma NamedAsLinked(loader: TableLoader, c: Constraint, k: ForeignKey, fields: seq<Field>)
    requires loader.Valid() && Linked(c, k, fields, loader.cache, loader.catalog) && k.parent.Plain()
    ensures NameOf(c.referencedTable) == k.parent
  {
    FullNameInjective(k.parent, NameOf(loader.cache[k.parent.FullName()]));
  }

  /** The guard, asked of a key that is not attached yet. */
  lemma GuardAsksGraph(c: Constraint, ts: set<Table>, refs: Refs<Table>)
    requires GraphNow(ts, refs) && c.referencedTable != null && c.referencedTable in ts
    ensures Wired(ts) && (c.IsLooping(ts) <==> LoopsFrom<Table>(TableNames(ts), refs, c.referencedTable))
  {
    GraphNowIsRefs(ts, refs);
    IsLoopingIsGraphSearch(c, ts);
  }

  /** What is cached is loadable, and the objects reference each other as the tables do. */
  ghost predicate Answers(catalog: Catalog, cache: Cache, refs: Refs<Table>, graph: Refs<QName>) {
    HoldsLoadable(cache, catalog) && Mirrored(catalog, cache, refs, graph)
  }

  /** The memory in the middle of the joins. */
  ghost predicate Stands(loader: TableLoader, ts: set<Table>, refs: Refs<Table>, graph: Refs<QName>)
    reads loader, loader.cache.Values, ts, ConstraintsOf(ts)
  {
    Held(loader, ts, refs) && Answers(loader.catalog, loader.cache, refs, graph)
  }

  /** A key made for the table as the verdict says: the child's columns with, as
      far as the table has them, its fields, and the cached parent. */
  ghost predicate KeyMade(c: Constraint, table: Table, v: Verdict, cache: Cache)
    reads c, table`fields
  {
    && v.Attached? && LinkIn(c) == v.link && Fits(c)
    && c.fields == Located(table.fields, v.link.columns)
    && c.referencedTable in cache.Values && NameOf(c.referencedTable) == v.parent
  }

  lemma LinkedIsMade(loader: TableLoader, c: Constraint, table: Table, parent: VirtualJoinPart, child: VirtualJoinPart,
                     id: string, i: nat)
    requires loader.Valid() && '.' !in table.schema
    requires Linked(c, KeyFor(table.schema, parent, child, id), table.fields, loader.cache, loader.catalog)
    ensures KeyMade(c, table, Toward(i, table.schema, parent, child), loader.cache)
  {
    NamedAsLinked(loader, c, KeyFor(table.schema, parent, child, id), table.fields);
  }

  /** A new key one way round, with what the guard says of it. */
  method BuildOneWay(loader: TableLoader, table: Table, left: VirtualJoinPart, right: VirtualJoinPart, id: string,
                     ghost ts: set<Table>, ghost refs: Refs<Table>, ghost graph: Refs<QName>, ghost i: nat)
    returns (r: Result<Constraint, LoadError>, looping: bool, ghost all: set<Table>, ghost grown: Refs<Table>)
    requires Stands(loader, ts, refs, graph) && '.' !in table.schema
    modifies loader`cache, loader`made
    ensures r.Ok? <==> !Broken(loader.catalog, QName(table.schema, left.table), left.columns)
    ensures r.Ok? ==> Stands(loader, all, grown, graph) && Notes(loader, table, r.value)
    ensures r.Ok? ==> ts <= all && Grows<Table>(refs, grown)
    ensures r.Ok? ==> KeyMade(r.value, table, Toward(i, table.schema, left, right), loader.cache)
    ensures r.Ok? ==> (looping <==> RepeatsFrom(graph, QName(table.schema, left.table)))
    ensures r.Err? ==> loader.Valid() && Remains(ts, refs, loader.made)
  {
    looping := false;
    ghost var before := loader.cache;
    r, all, grown := NewConstraintFromVirtualFK(loader, table, left, right, id, ts, refs);
    if r.Ok? {
      MirrorGrows(loader.catalog, before, refs, graph, loader.cache, grown);
      LinkedIsMade(loader, r.value, table, left, right, id, i);
      GuardAsksGraph(r.value, all, grown);
      GuardAnswersForTables(loader.catalog, loader.cache, grown, graph, r.value.referencedTable);
      looping := r.value.IsLooping(all);
    }
  }

  /** The key the program builds for a join: it first points the child at the
      parent; if that leads into a loop of names, at the side the join calls the child. */
  method BuildKey(loader: TableLoader, table: Table, join: VirtualJoin, ids: (string, string),
                  ghost ts: set<Table>, ghost refs: Refs<Table>, ghost graph: Refs<QName>, ghost i: nat)
    returns (r: Result<Constraint, LoadError>, ghost all: set<Table>, ghost grown: Refs<Table>)
    requires Stands(loader, ts, refs, graph) && '.' !in table.schema
    modifies loader`cache, loader`made
    ensures r.Err? <==> JudgeKey(loader.catalog, graph, table.schema, join, i).Refused?
    ensures r.Ok? ==> Stands(loader, all, grown, graph) && ts <= all && Notes(loader, table, r.value)
    ensures r.Ok? ==> KeyMade(r.value, table, JudgeKey(loader.catalog, graph, table.schema, join, i), loader.cache)
    ensures r.Err? ==> loader.Valid() && Remains(ts, refs, loader.made)
  {
    var looping;
    r, looping, all, grown := BuildOneWay(loader, table, join.left, join.right, ids.0, ts, refs, graph, i);
    if r.Ok? && looping {
      ghost var more, most;
      r, looping, more, most := BuildOneWay(loader, table, join.right, join.left, ids.1, all, grown, graph, i);
      if r.Ok? {
        all, grown := more, most;
      } else {
        RemainsOfMore(all, grown, ts, refs, loader.made);
      }
    }
  }

  /** The key became the table's last. */
  ghost predicate OneKeyMore(table: Table, before: seq<Constraint>, v: Verdict, cache: Cache)
    reads table, table.constraints
  {
    && |table.constraints| == |before| + 1 && before <= table.constraints
    && KeyMade(table.constraints[|before|], table, v, cache)
  }

  method AttachKey(loader: TableLoader, table: Table, c: Constraint, ghost v: Verdict,
                   ghost ts: set<Table>, ghost refs: Refs<Table>)
    requires Held(loader, ts, refs) && Notes(loader, table, c) && KeyMade(c, table, v, loader.cache) && table in ts
    modifies table`constraints
    ensures Held(loader, ts, AddEdge<Table>(refs, table, c.referencedTable))
    ensures OneKeyMore(table, old(table.constraints), v, loader.cache)
  {
    ghost var key := KeyMade(c, table, v, loader.cache);
    Attach(loader, table, c, ts, refs);
    assert key == KeyMade(c, table, v, loader.cache);
  }

  /** With the key on the table's list the objects still reference each other as
      the tables do. */
  lemma MirrorAttached(loader: TableLoader, table: Table, c: Constraint, v: Verdict, ts: set<Table>,
                       refs: Refs<Table>, graph: Refs<QName>)
    requires Stands(loader, ts, refs, graph) && KeyMade(c, table, v, loader.cache) && table in ts
    ensures NameOf(table) in graph && c.referencedTable in ts
    ensures
      Answers(loader.catalog, loader.cache, AddEdge<Table>(refs, table, c.referencedTable),
              AddEdge<QName>(graph, NameOf(table), v.parent))
  {
    MirrorWithEdge(loader.catalog, loader.cache, refs, graph, table, c.referencedTable);
  }

  /** The built key takes its place on the table's list. */
  method AttachBuilt(loader: TableLoader, table: Table, c: Constraint, ghost v: Verdict,
                     ghost all: set<Table>, ghost grown: Refs<Table>, ghost graph: Refs<QName>)
    returns (ghost after: Refs<Table>)
    requires Stands(loader, all, grown, graph) && Notes(loader, table, c) && KeyMade(c, table, v, loader.cache)
    requires table in all
    modifies table`constraints
    ensures NameOf(table) in graph
    ensures Held(loader, all, after)
    ensures Answers(loader.catalog, loader.cache, after, AddEdge<QName>(graph, NameOf(table), v.parent))
    ensures OneKeyMore(table, old(table.constraints), v, loader.cache)
  {
    after := AddEdge<Table>(grown, table, c.referencedTable);
    MirrorAttached(loader, table, c, v, all, grown, graph);
    AttachKey(loader, table, c, v, all, grown);
  }

  method AddKey(loader: TableLoader, table: Table, join: VirtualJoin, ids: (string, string),
                ghost ts: set<Table>, ghost refs: Refs<Table>, ghost graph: Refs<QName>, ghost i: nat)
    returns (error: Option<LoadError>, ghost all: set<Table>, ghost after: Refs<Table>)
    requires Stands(loader, ts, refs, graph) && table in ts && '.' !in table.schema
    modifies loader`cache, loader`made, table`constraints
    ensures NameOf(table) in graph
    ensures error.Some? <==> JudgeKey(loader.catalog, graph, table.schema, join, i).Refused?
    ensures error.None? ==>
      var v := JudgeKey(loader.catalog, graph, table.schema, join, i);
      && Held(loader, all, after) && ts <= all
      && Answers(loader.catalog, loader.cache, after, AddEdge<QName>(graph, NameOf(table), v.parent))
      && OneKeyMore(table, old(table.constraints), v, loader.cache)
    ensures error.Some? ==>
      table.constraints == old(table.constraints) && loader.Valid() && Remains(ts, refs, loader.made)
  {
    ghost var v, cs := JudgeKey(loader.catalog, graph, table.schema, join, i), table.constraints;
    NameInGraph(loader.catalog, loader.cache, refs, graph, table);
    var built: Result<Constraint, LoadError>;
    built, all, after := BuildKey(loader, table, join, ids, ts, refs, graph, i);
    assert table.constraints == cs;
    if built.Err? {
      return Some(built.error), all, after;
    }
    error := None;
    after := AttachBuilt(loader, table, built.value, v, all, after, graph);
  }

  lemma NameInGraph(catalog: Catalog, cache: Cache, objects: Refs<Table>, graph: Refs<QName>, t: Table)
    requires Mirrored(catalog, cache, objects, graph) && t in objects
    ensures NameOf(t) in graph
  {
    assert Below(objects, graph, t);
  }

  // The list.

  ghost predicate DistinctTables(tables: seq<Table>) {
    forall i, j | 0 <= i < j < |tables| :: tables[i] != tables[j]
  }

  /** The memory and the list stand as the state says. */
  ghost predicate Runs(loader: TableLoader, tables: seq<Table>, ts: set<Table>, refs: Refs<Table>, s: JoinState)
    reads loader, loader.cache.Values, ts, ConstraintsOf(ts), tables`constraints
  {
    && Stands(loader, ts, refs, s.graph) && Within(tables, ts) && EntriesOf(tables) == s.run && s.Valid()
  }

  lemma {:induction false} IndexIsEntry(tables: seq<Table>, name: string)
    ensures IndexOfName(tables, name) == EntryNamed(EntriesOf(tables), name)
  {
    if tables != [] {
      assert EntriesOf(tables)[1..] == EntriesOf(tables[1..]);
      IndexIsEntry(tables[1..], name);
    }
  }

  lemma LinksInSnoc(cs: seq<Constraint>, c: Constraint)
    ensures LinksIn(cs + [c]) == LinksIn(cs) + [LinkIn(c)]
  {
  }

  /** One key more on one of the distinct tables of the list. */
  lemma OneEntryMore(tables: seq<Table>, before: seq<Entry>, i: nat, cs: seq<Constraint>, v: Verdict, cache: Cache)
    requires i < |tables| == |before| && OneKeyMore(tables[i], cs, v, cache)
    requires before[i] == Entry(NameOf(tables[i]), LinksIn(cs))
    requires forall k | 0 <= k < |tables| && k != i :: EntryOf(tables[k]) == before[k]
    ensures EntriesOf(tables) == before[i := Entry(before[i].table, before[i].links + [v.link])]
  {
    var c := tables[i].constraints[|cs|];
    var after := before[i := Entry(before[i].table, before[i].links + [v.link])];
    assert tables[i].constraints == cs + [c];
    LinksInSnoc(cs, c);
    assert EntryOf(tables[i]) == after[i];
    forall k | 0 <= k < |tables|
      ensures EntriesOf(tables)[k] == after[k]
    {
    }
  }

  ghost predicate OthersAre(tables: seq<Table>, i: nat, entries: seq<Entry>)
    requires i < |tables|
    reads (Elements(tables) - {tables[i]})`constraints
  {
    |entries| == |tables| && forall k | 0 <= k < |tables| && tables[k] != tables[i] :: EntryOf(tables[k]) == entries[k]
  }

  lemma SameEntries(tables: seq<Table>, i: nat, entries: seq<Entry>)
    requires i < |tables| && DistinctTables(tables) && OthersAre(tables, i, entries)
    requires EntryOf(tables[i]) == entries[i]
    ensures EntriesOf(tables) == entries
  {
    forall k | 0 <= k < |tables|
      ensures EntriesOf(tables)[k] == entries[k]
    {
    }
  }

  /** The memory and the list after a key was attached. */
  lemma RunsWithKey(loader: TableLoader, tables: seq<Table>, cs: seq<Constraint>, ts: set<Table>, all: set<Table>,
                    refs: Refs<Table>, s: JoinState, v: Verdict)
    requires s.Valid() && v.Attached? && v.child < |s.run| == |tables| && DistinctTables(tables)
    requires Held(loader, all, refs) && Within(tables, ts) && ts <= all
    requires Answers(loader.catalog, loader.cache, refs, AddEdge<QName>(s.graph, s.run[v.child].table, v.parent))
    requires s.run[v.child] == Entry(NameOf(tables[v.child]), LinksIn(cs))
    requires OneKeyMore(tables[v.child], cs, v, loader.cache) && OthersAre(tables, v.child, s.run)
    ensures Runs(loader, tables, all, refs, Turned(s, v))
  {
    OneEntryMore(tables, s.run, v.child, cs, v, loader.cache);
    WithinMore(tables, ts, all);
  }

  /** A join no key covers, attached to a listed table. */
  method AddListed(loader: TableLoader, tables: seq<Table>, i: nat, table: Table, join: VirtualJoin,
                   ids: (string, string), ghost ts: set<Table>, ghost refs: Refs<Table>, ghost s: JoinState)
    returns (error: Option<LoadError>, ghost all: set<Table>, ghost after: Refs<Table>)
    requires Runs(loader, tables, ts, refs, s) && DistinctTables(tables)
    requires i < |tables| && tables[i] == table && '.' !in table.schema
    modifies loader`cache, loader`made, table`constraints
    ensures
      var v := JudgeKey(loader.catalog, s.graph, table.schema, join, i);
      && (error.Some? <==> v.Refused?)
      && (error.None? ==> Runs(loader, tables, all, after, Turned(s, v)) && ts <= all)
      && (error.None? ==> OneKeyMore(table, old(table.constraints), v, loader.cache))
    ensures error.Some? ==> EntriesOf(tables) == s.run && loader.Valid() && Remains(ts, refs, loader.made)
  {
    ghost var v, cs := JudgeKey(loader.catalog, s.graph, table.schema, join, i), table.constraints;
    ghost var others := OthersAre(tables, i, s.run);
    assert EntryOf(table) == s.run[i];
    error, all, after := AddKey(loader, table, join, ids, ts, refs, s.graph, i);
    assert others == OthersAre(tables, i, s.run);
    if error.Some? {
      SameEntries(tables, i, s.run);
    } else {
      RunsWithKey(loader, tables, cs, ts, all, after, s, v);
    }
  }

  /** A join no key covers: not applicable, or attached to the first listed
      table with the child's name. */
  method AddUncovered(loader: TableLoader, tables: seq<Table>, join: VirtualJoin, ids: (string, string),
                      ghost ts: set<Table>, ghost refs: Refs<Table>, ghost s: JoinState)
    returns (error: Option<LoadError>, ghost all: set<Table>, ghost after: Refs<Table>)
    requires Runs(loader, tables, ts, refs, s) && PlainSchemas(tables) && DistinctTables(tables)
    requires !CoveredBy(s.run, join)
    modifies loader`cache, loader`made, ChildOf(tables, join.right.table)`constraints
    ensures
      var v := JudgeJoin(loader.catalog, s, join);
      && (error.Some? <==> v.Refused?)
      && (error.None? ==> Runs(loader, tables, all, after, Turned(s, v)) && ts <= all)
      && (v.Attached? ==> OneKeyMore(tables[v.child], old(tables[v.child].constraints), v, loader.cache))
    ensures error.Some? ==> EntriesOf(tables) == s.run && loader.Valid() && Remains(ts, refs, loader.made)
  {
    IndexIsEntry(tables, join.right.table);
    var tableIdx := IndexOfName(tables, join.right.table);
    if tableIdx == |tables| {
      all, error, after := ts, None, refs;
    } else {
      error, all, after := AddListed(loader, tables, tableIdx, tables[tableIdx], join, ids, ts, refs, s);
    }
  }

  /** One turn of the loop over the joins. */
  method AddVirtualFK(loader: TableLoader, tables: seq<Table>, join: VirtualJoin, ids: (string, string),
                      ghost ts: set<Table>, ghost refs: Refs<Table>, ghost s: JoinState)
    returns (error: Option<LoadError>, ghost all: set<Table>, ghost after: Refs<Table>)
    requires Runs(loader, tables, ts, refs, s) && PlainSchemas(tables) && DistinctTables(tables)
    modifies loader`cache, loader`made, ChildOf(tables, join.right.table)`constraints
    ensures
      var v := JudgeJoin(loader.catalog, s, join);
      && (error.Some? <==> v.Refused?)
      && (error.None? ==> Runs(loader, tables, all, after, Turned(s, v)) && ts <= all)
      && (v.Attached? ==> OneKeyMore(tables[v.child], old(tables[v.child].constraints), v, loader.cache))
    ensures error.Some? ==> EntriesOf(tables) == s.run && loader.Valid() && Remains(ts, refs, loader.made)
  {
    SkipIffCovered(tables, join);
    var covered := ShouldSkipVirtualFK(tables, join);
    if covered {
      all, error, after := ts, None, refs;
    } else {
      error, all, after := AddUncovered(loader, tables, join, ids, ts, refs, s);
    }
  }

  /** All joins in turn, up to the first that cannot be added: the lists of keys
      are the ones the catalogue and the joins make them. */
  method AddVirtualFKs(loader: TableLoader, tables: seq<Table>, fkeys: seq<VirtualJoin>, ids: nat -> (string, string),
                       ghost ts: set<Table>, ghost refs: Refs<Table>, ghost s: JoinState)
    returns (error: Option<LoadError>, ghost all: set<Table>, ghost after: Refs<Table>)
    requires Runs(loader, tables, ts, refs, s) && PlainSchemas(tables) && DistinctTables(tables)
    modifies loader`cache, loader`made, tables`constraints
    ensures EntriesOf(tables) == AfterJoins(loader.catalog, s, fkeys).run
    ensures error.Some? <==> SomeRefused(loader.catalog, s, fkeys)
    ensures loader.Valid() && ts <= all && Remains(all, after, loader.made)
    ensures error.None? ==> Runs(loader, tables, all, after, AfterJoins(loader.catalog, s, fkeys))
  {
    all, after := ts, refs;
    ghost var now: JoinState := s;
    for i := 0 to |fkeys|
      invariant Runs(loader, tables, all, after, now) && ts <= all
      invariant AfterJoins(loader.catalog, s, fkeys) == AfterJoins(loader.catalog, now, fkeys[i..])
      invariant SomeRefused(loader.catalog, s, fkeys) <==> SomeRefused(loader.catalog, now, fkeys[i..])
    {
      ghost var more: set<Table>, grown: Refs<Table>;
      error, more, grown := AddVirtualFK(loader, tables, fkeys[i], ids(i), all, after, now);
      assert fkeys[i..][0] == fkeys[i] && fkeys[i..][1..] == fkeys[i + 1..];
      if error.Some? {
        return;
      }
      now := Turned(now, JudgeJoin(loader.catalog, now, fkeys[i]));
      all, after := more, grown;
    }
    error := None;
  }
}
