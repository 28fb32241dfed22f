/** Loading tables with everything they reference (db/data.go LoadTable,
    db/constraint.go loadReferencedTable). The database catalogue is a finite
    map; the cache is the program's global map keyed by "schema.table". */
module Loader {
  import opened Text
  import opened Fields
  import opened ReferenceGraph
  import opened Schema

  datatype QName = QName(schema: string, table: string) {
    function FullName(): string {
      schema + "." + table
    }

    /** Then the full name determines schema and table. */
    predicate Plain() {
      '.' !in schema
    }
  }

  lemma FullNameInjective(p: QName, q: QName)
    requires p.Plain() && q.Plain() && p.FullName() == q.FullName()
    ensures p == q
  {
    SplitFirst(p.schema, p.table, '.');
    SplitFirst(q.schema, q.table, '.');
    assert p.FullName() == p.schema + ['.'] + p.table && q.FullName() == q.schema + ['.'] + q.table;
    assert p.schema == Split(p.FullName(), '.')[0] == q.schema;
    assert p.table == p.FullName()[|p.schema| + 1..] == q.table;
  }

  datatype ForeignKey = ForeignKey(name: string, parent: QName, columns: seq<string>, parentColumns: seq<string>)

  datatype TableDef = TableDef(fields: seq<Field>, keys: seq<ForeignKey>)

  type Catalog = map<QName, TableDef>

  /** Schema names hold no dot. */
  ghost predicate PlainCatalog(catalog: Catalog) {
    forall q <- catalog :: q.Plain() && forall i | 0 <= i < |catalog[q].keys| :: catalog[q].keys[i].parent.Plain()
  }

  function Parents(keys: seq<ForeignKey>): (parents: seq<QName>)
    ensures |parents| == |keys| && forall i | 0 <= i < |keys| :: parents[i] == keys[i].parent
  {
    seq(|keys|, i requires 0 <= i < |keys| => keys[i].parent)
  }

  function CatalogRefs(catalog: Catalog): Refs<QName> {
    map q | q in catalog :: Parents(catalog[q].keys)
  }

  /** The key's parent table exists with all the columns the key names. */
  predicate Resolvable(catalog: Catalog, k: ForeignKey) {
    k.parent in catalog && HasColumns(catalog[k.parent].fields, k.parentColumns)
  }

  ghost predicate HasBrokenKey(catalog: Catalog, q: QName) {
    q in catalog && exists i | 0 <= i < |catalog[q].keys| :: !Resolvable(catalog, catalog[q].keys[i])
  }

  /** Some table that loading `q` must visit cannot be resolved. */
  ghost predicate Unloadable(catalog: Catalog, q: QName) {
    q !in catalog || exists p :: Reaches(CatalogRefs(catalog), q, p) && HasBrokenKey(catalog, p)
  }

  function NameOf(t: Table): QName {
    QName(t.schema, t.name)
  }

  type Cache = map<string, Table>

  ghost predicate Extends(before: Cache, after: Cache) {
    forall k <- before :: k in after && after[k] == before[k]
  }

  /** The table stands for a catalogue entry: a plain name, and its columns. */
  ghost predicate Known(t: Table, catalog: Catalog)
    reads t`fields
  {
    NameOf(t).Plain() && NameOf(t) in catalog && SameColumns(t.fields, catalog[NameOf(t)].fields)
  }

  /** The objects made by loading, each with the name of the table it was made for. */
  type Made = map<object, QName>

  ghost predicate MadeMore(before: Made, after: Made) {
    forall o <- before :: o in after && after[o] == before[o]
  }

  ghost predicate Owns(t: Table, made: Made)
    reads t`constraints
  {
    t in made && forall c <- t.constraints :: c in made && made[c] == NameOf(t)
  }

  /** The cache holds tables of the catalogue under their own names. */
  ghost predicate CacheFits(cache: Cache, made: Made, catalog: Catalog)
    reads cache.Values
  {
    forall k <- cache :: k == NameOf(cache[k]).FullName() && Known(cache[k], catalog) && Owns(cache[k], made)
  }

  ghost function MadeFor(t: Table, cs: seq<Constraint>): (made: Made) {
    var keys: set<object> := set c <- cs;
    map o <- keys + {t} :: NameOf(t)
  }

  lemma CacheFitsWithOneMore(cache: Cache, made: Made, catalog: Catalog, t: Table, cs: seq<Constraint>)
    requires CacheFits(cache, made, catalog) && Known(t, catalog) && t.constraints == cs
    requires t !in made && forall c <- cs :: c !in made
    ensures CacheFits(cache[NameOf(t).FullName() := t], made + MadeFor(t, cs), catalog)
    ensures MadeMore(made, made + MadeFor(t, cs))
  {
    var more := made + MadeFor(t, cs);
    forall k <- cache
      ensures Owns(cache[k], more)
    {
      assert Owns(cache[k], made);
    }
  }

  lemma OwnedIsNotShared(cache: Cache, made: Made, catalog: Catalog)
    requires CacheFits(cache, made, catalog)
    ensures NoneShared(cache.Values)
  {
    forall k, l, c | k in cache && l in cache && c in cache[k].constraints && c in cache[l].constraints
      ensures NameOf(cache[k]) == NameOf(cache[l])
    {
      assert Owns(cache[k], made) && Owns(cache[l], made);
    }
  }

  /** A constraint object just read from the catalogue. */
  ghost predicate Described(c: Constraint, k: ForeignKey) {
    && c.constraintName == k.name
    && QName(c.referencedTableSchema, c.referencedTableName) == k.parent
    && c.columnsName == k.columns && c.referencedColumnsName == k.parentColumns
  }

  /** A constraint object filled in: it points at the one cached object of its
      parent table and carries the named columns of both sides. */
  ghost predicate Linked(c: Constraint, k: ForeignKey, childFields: seq<Field>, cache: Cache, catalog: Catalog)
    reads c
  {
    && Described(c, k)
    && Resolvable(catalog, k)
    && c.fields == Located(childFields, k.columns)
    && SameColumns(c.referencedFields, Located(catalog[k.parent].fields, k.parentColumns))
    && k.parent.FullName() in cache && c.referencedTable == cache[k.parent.FullName()]
    && !c.willBeInsertedDuringThisRun
  }

  ghost predicate AllLinked(cs: seq<Constraint>, n: nat, keys: seq<ForeignKey>, childFields: seq<Field>, cache: Cache,
                            catalog: Catalog)
    requires n <= |cs| == |keys|
    reads cs
  {
    forall i | 0 <= i < n :: Linked(cs[i], keys[i], childFields, cache, catalog)
  }

  /** A table whose foreign keys have all been resolved. */
  ghost predicate Finished(t: Table, cache: Cache, catalog: Catalog)
    reads t, t.constraints
  {
    && Known(t, catalog)
    && var def := catalog[NameOf(t)];
    && |t.constraints| == |def.keys|
    && AllLinked(t.constraints, |t.constraints|, def.keys, def.fields, cache, catalog)
  }

  /** Not filled in yet. */
  ghost predicate Blank(c: Constraint)
    reads c
  {
    c.fields == [] && c.referencedFields == [] && c.referencedTable == null && !c.willBeInsertedDuringThisRun
  }

  /** Distinct constraint objects for these keys, in order. */
  ghost predicate Describe(cs: seq<Constraint>, keys: seq<ForeignKey>) {
    && |cs| == |keys|
    && (forall i | 0 <= i < |cs| :: Described(cs[i], keys[i]))
    && (forall i, j | 0 <= i < j < |cs| :: cs[i] != cs[j])
  }

  ghost predicate AllBlank(cs: seq<Constraint>, from: nat)
    reads cs
  {
    forall i | from <= i < |cs| :: Blank(cs[i])
  }

  ghost predicate AllFinished(ts: set<Table>, cache: Cache, catalog: Catalog)
    reads ts, ConstraintsOf(ts)
  {
    forall t <- ts :: (Covered(ts, t); Finished(t, cache, catalog))
  }

  /** The tables that entered the cache. */
  ghost function Newly(before: Cache, after: Cache): set<Table> {
    set k | k in after && k !in before :: after[k]
  }

  lemma NewlyInTwoSteps(before: Cache, middle: Cache, after: Cache)
    requires Extends(before, middle) && Extends(middle, after)
    ensures Extends(before, after)
    ensures Newly(before, after) == Newly(before, middle) + Newly(middle, after)
  {
    forall k | k in middle && k !in before
      ensures middle[k] in Newly(before, after)
    {
      assert after[k] == middle[k];
    }
  }

  lemma NewlyAfterEntering(before: Cache, k: string, t: Table, after: Cache)
    requires k !in before && Extends(before[k := t], after)
    ensures Extends(before, after) && Newly(before, after) == {t} + Newly(before[k := t], after)
  {
    assert Newly(before, before[k := t]) == {t};
    NewlyInTwoSteps(before, before[k := t], after);
  }

  function ParentOf(c: Constraint): QName {
    QName(c.referencedTableSchema, c.referencedTableName)
  }

  lemma NewlyFromEmpty(cache: Cache)
    ensures Newly(map[], cache) == cache.Values
  {
  }

  lemma ValuesInTwoSteps(before: Cache, after: Cache)
    requires Extends(before, after)
    ensures after.Values == before.Values + Newly(before, after)
  {
    NewlyFromEmpty(before);
    NewlyFromEmpty(after);
    NewlyInTwoSteps(map[], before, after);
  }

  lemma LinkedOneMore(cs: seq<Constraint>, keys: seq<ForeignKey>, i: nat, childFields: seq<Field>,
                      before: Cache, after: Cache, catalog: Catalog)
    requires i < |cs| == |keys| && Extends(before, after)
    requires AllLinked(cs, i, keys, childFields, before, catalog)
    requires Linked(cs[i], keys[i], childFields, after, catalog)
    ensures AllLinked(cs, i + 1, keys, childFields, after, catalog)
  {
    forall j | 0 <= j < i
      ensures Linked(cs[j], keys[j], childFields, after, catalog)
    {
      assert Linked(cs[j], keys[j], childFields, before, catalog);
    }
  }

  /** Completed tables stay complete while the cache grows. */
  lemma FinishedInTwoSteps(before: Cache, middle: Cache, after: Cache, catalog: Catalog)
    requires Extends(before, middle) && Extends(middle, after)
    requires AllFinished(Newly(before, middle), middle, catalog) && AllFinished(Newly(middle, after), after, catalog)
    ensures AllFinished(Newly(before, after), after, catalog)
  {
    NewlyInTwoSteps(before, middle, after);
    forall t <- Newly(before, middle)
      ensures Finished(t, after, catalog)
    {
      assert Finished(t, middle, catalog);
    }
  }

  lemma FinishedOneMore(t: Table, ts: set<Table>, cache: Cache, catalog: Catalog)
    requires Finished(t, cache, catalog) && AllFinished(ts, cache, catalog)
    ensures AllFinished({t} + ts, cache, catalog)
  {
  }

  /** So filling in a blank one leaves completed tables alone. */
  lemma FinishedConstraintsPoint(ts: set<Table>, cache: Cache, catalog: Catalog)
    requires AllFinished(ts, cache, catalog)
    ensures forall c <- ConstraintsOf(ts) :: c.referencedTable != null
  {
    forall t, i | t in ts && 0 <= i < |t.constraints|
      ensures t.constraints[i].referencedTable != null
    {
      assert Finished(t, cache, catalog);
      assert Linked(t.constraints[i], catalog[NameOf(t)].keys[i], catalog[NameOf(t)].fields, cache, catalog);
    }
  }

  ghost predicate AllReachable(ts: set<Table>, root: QName, catalog: Catalog) {
    forall t <- ts :: Reaches(CatalogRefs(catalog), root, NameOf(t))
  }

  /** What the parent of one of `q`'s keys reaches, `q` reaches. */
  lemma ReachableFromParent(ts: set<Table>, q: QName, i: nat, catalog: Catalog)
    requires q in catalog && i < |catalog[q].keys| && AllReachable(ts, catalog[q].keys[i].parent, catalog)
    ensures AllReachable(ts, q, catalog)
  {
    var refs := CatalogRefs(catalog);
    assert refs[q][i] == catalog[q].keys[i].parent;
    forall t <- ts
      ensures Reaches(refs, q, NameOf(t))
    {
      ReachesStep(refs, q, catalog[q].keys[i].parent, NameOf(t));
    }
  }

  /** The i-th key of `q` was followed between `middle` and `after`. */
  lemma OneKeyFurther(before: Cache, middle: Cache, after: Cache, q: QName, cs: seq<Constraint>, i: nat,
                      catalog: Catalog)
    requires Extends(before, middle) && Extends(middle, after)
    requires q in catalog && i < |cs| && Describe(cs, catalog[q].keys)
    requires AllReachable(Newly(before, middle), q, catalog)
    requires AllReachable(Newly(middle, after), catalog[q].keys[i].parent, catalog)
    requires AllFinished(Newly(before, middle), middle, catalog) && AllFinished(Newly(middle, after), after, catalog)
    requires AllLinked(cs, i, catalog[q].keys, catalog[q].fields, middle, catalog)
    requires Linked(cs[i], catalog[q].keys[i], catalog[q].fields, after, catalog)
    ensures Extends(before, after)
    ensures AllReachable(Newly(before, after), q, catalog)
    ensures AllFinished(Newly(before, after), after, catalog)
    ensures AllLinked(cs, i + 1, catalog[q].keys, catalog[q].fields, after, catalog)
  {
    NewlyInTwoSteps(before, middle, after);
    ReachableFromParent(Newly(middle, after), q, i, catalog);
    FinishedInTwoSteps(before, middle, after, catalog);
    LinkedOneMore(cs, catalog[q].keys, i, catalog[q].fields, middle, after, catalog);
  }

  /** A key that cannot be resolved makes the table unloadable. */
  lemma BrokenKeyUnloadable(q: QName, i: nat, catalog: Catalog)
    requires q in catalog && i < |catalog[q].keys|
    requires
      var k := catalog[q].keys[i];
      Unloadable(catalog, k.parent) || !HasColumns(catalog[k.parent].fields, k.parentColumns)
    ensures Unloadable(catalog, q)
  {
    var refs, k := CatalogRefs(catalog), catalog[q].keys[i];
    assert refs[q][i] == k.parent;
    if Resolvable(catalog, k) {
      var p :| Reaches(refs, k.parent, p) && HasBrokenKey(catalog, p);
      ReachesStep(refs, q, k.parent, p);
    } else {
      ReachesRefl(refs, q);
      assert HasBrokenKey(catalog, q);
    }
  }

  datatype LoadError = FieldsNotFound(table: QName) | ReferencedColumnNotFound(column: string)

  class TableLoader {
    const catalog: Catalog
    var cache: Cache
    ghost var made: Made
    ghost var earlier: set<object> // some objects made by others

    constructor (catalog: Catalog)
      requires PlainCatalog(catalog)
      ensures this.catalog == catalog && cache == map[] && made == map[] && earlier == {} && Valid()
    {
      this.catalog := catalog;
      cache, made, earlier := map[], map[], {};
    }

    /** Notes all objects that are there, but for those made by loading. */
    ghost method NoteEarlier()
      requires Valid()
      modifies this`earlier
      ensures Valid() && forall o: object {:trigger Present(o)} | Present(o) :: o in earlier || o in made
    {
      earlier := set o: object | Present(o) && o !in made;
    }

    ghost predicate Valid()
      reads this, cache.Values
    {
      PlainCatalog(catalog) && made.Keys !! earlier && CacheFits(cache, made, catalog)
    }

    /** Catalogue tables not yet in the cache: what bounds the recursion. */
    ghost function Unseen(): set<QName>
      reads this
    {
      set q | q in catalog && q.FullName() !in cache
    }

    /** Nothing that was there is lost. */
    ghost predicate Grown(start: Cache, startMade: Made)
      reads this, cache.Values
    {
      Valid() && Extends(start, cache) && MadeMore(startMade, made)
    }

    /** What entered the cache is complete and behind `root`. */
    ghost predicate Behind(start: Cache, root: QName)
      reads this, cache.Values, ConstraintsOf(Newly(start, cache))
    {
      AllReachable(Newly(start, cache), root, catalog) && AllFinished(Newly(start, cache), cache, catalog)
    }

    method GetConstraints(keys: seq<ForeignKey>) returns (cs: seq<Constraint>)
      ensures Describe(cs, keys) && AllBlank(cs, 0) && fresh(cs)
    {
      cs := [];
      for n := 0 to |keys|
        invariant Describe(cs, keys[..n]) && AllBlank(cs, 0) && fresh(cs)
      {
        var k := keys[n];
        var c := new Constraint(k.name, k.parent.schema, k.parent.table, k.columns, k.parentColumns);
        cs := cs + [c];
      }
      assert keys[..|keys|] == keys;
    }

    method ReadTable(q: QName) returns (table: Table)
      requires q in catalog
      ensures fresh(table) && fresh(table.constraints) && NameOf(table) == q && table.fields == catalog[q].fields
      ensures Describe(table.constraints, catalog[q].keys) && AllBlank(table.constraints, 0)
    {
      var cs := GetConstraints(catalog[q].keys);
      table := new Table(q.schema, q.table, catalog[q].fields, cs);
    }

    ghost predicate NewTo(table: Table, objects: set<object>)
      reads table`constraints
    {
      table !in objects && forall c <- table.constraints :: c !in objects
    }

    /** Puts the table into the cache, its foreign keys still unresolved. */
    method Enter(q: QName) returns (table: Table)
      requires Valid() && q.Plain() && q in catalog && q.FullName() !in cache
      modifies this`cache, this`made
      ensures Valid() && cache == old(cache)[q.FullName() := table] && MadeMore(old(made), made)
      ensures fresh(table) && fresh(table.constraints) && NameOf(table) == q && table.fields == catalog[q].fields
      ensures Describe(table.constraints, catalog[q].keys) && AllBlank(table.constraints, 0)
    {
      table := ReadTable(q);
      ghost var blank := AllBlank(table.constraints, 0);
      Store(q, table);
      assert blank == AllBlank(table.constraints, 0);
    }

    method Store(q: QName, table: Table)
      requires Valid() && NameOf(table) == q && Known(table, catalog) && NewTo(table, made.Keys)
      requires NewTo(table, earlier)
      modifies this`cache, this`made
      ensures Valid() && cache == old(cache)[q.FullName() := table] && MadeMore(old(made), made)
    {
      CacheFitsWithOneMore(cache, made, catalog, table, table.constraints);
      cache, made := cache[q.FullName() := table], made + MadeFor(table, table.constraints);
    }

    /** The table entered and everything loaded for it. */
    lemma CompleteBehindItself(before: Cache, start: Cache, table: Table, q: QName)
      requires q in catalog && NameOf(table) == q && Newly(before, cache) == {table} + Newly(start, cache)
      requires Behind(start, q) && Finished(table, cache, catalog)
      ensures Behind(before, q)
    {
      ReachesRefl(CatalogRefs(catalog), q);
      FinishedOneMore(table, Newly(start, cache), cache, catalog);
    }

    method LoadTable(q: QName) returns (r: Result<Table, LoadError>)
      requires Valid() && q.Plain()
      modifies this`cache, this`made
      ensures Grown(old(cache), old(made))
      ensures r.Ok? ==> Behind(old(cache), q) && q.FullName() in cache && r.value == cache[q.FullName()]
      ensures r.Err? ==> Unloadable(catalog, q)
      decreases Unseen(), 0
    {
      if q.FullName() in cache {
        return Ok(cache[q.FullName()]);
      }
      if q !in catalog {
        return Err(FieldsNotFound(q));
      }
      ghost var before := cache;
      var table := Enter(q);
      ghost var start := cache;
      assert q in old(Unseen()) && q !in Unseen();
      var error := ResolveAll(table);
      NewlyAfterEntering(before, q.FullName(), table, cache);
      if error.Some? {
        return Err(error.value);
      }
      CompleteBehindItself(before, start, table, q);
      r := Ok(table);
    }

    /** The first `n` keys of `table` are filled in, and so is everything loaded for them. */
    ghost predicate Progress(table: Table, cs: seq<Constraint>, n: nat, start: Cache, startMade: Made)
      reads this, cache.Values, table, cs, ConstraintsOf(Newly(start, cache))
    {
      && Steady(table, cs) && n <= |cs| && Grown(start, startMade)
      && AllLinked(cs, n, catalog[NameOf(table)].keys, table.fields, cache, catalog) && AllBlank(cs, n)
      && Behind(start, NameOf(table))
    }

    /** What does not change while the keys are filled in. */
    ghost predicate Steady(table: Table, cs: seq<Constraint>)
      reads table
    {
      && table.constraints == cs
      && NameOf(table) in catalog && table.fields == catalog[NameOf(table)].fields
      && Describe(cs, catalog[NameOf(table)].keys)
    }

    lemma NothingResolved(table: Table, cs: seq<Constraint>)
      requires Valid() && Steady(table, cs) && AllBlank(cs, 0)
      ensures Progress(table, cs, 0, cache, made)
    {
      assert Newly(cache, cache) == {};
    }

    lemma AllResolved(table: Table, cs: seq<Constraint>, start: Cache, startMade: Made)
      requires Progress(table, cs, |cs|, start, startMade) && NameOf(table).Plain()
      ensures Behind(start, NameOf(table)) && Finished(table, cache, catalog)
    {
    }

    /** Seen from outside: what loading makes is new. */
    method Load(q: QName) returns (r: Result<Table, LoadError>)
      requires Valid() && q.Plain()
      modifies this`cache, this`made, this`earlier
      ensures Grown(old(cache), old(made)) && fresh(made.Keys - old(made.Keys))
      ensures r.Ok? ==> Behind(old(cache), q) && q.FullName() in cache && r.value == cache[q.FullName()]
      ensures r.Err? ==> Unloadable(catalog, q)
    {
      NoteEarlier();
      r := LoadTable(q);
      forall o | o in made && o !in old(made)
        ensures fresh(o)
      {
        assert Present(o) && o !in earlier;
      }
    }

    /** The loop over the table's foreign keys at the end of LoadTable. */
    method ResolveAll(table: Table) returns (error: Option<LoadError>)
      requires Valid() && NameOf(table).Plain() && Steady(table, table.constraints) && AllBlank(table.constraints, 0)
      modifies this`cache, this`made, table.constraints
      ensures Grown(old(cache), old(made))
      ensures error.None? ==> Behind(old(cache), NameOf(table)) && Finished(table, cache, catalog)
      ensures error.Some? ==> Unloadable(catalog, NameOf(table))
      decreases Unseen(), 6
    {
      ghost var start, startMade := cache, made;
      var cs := table.constraints;
      NothingResolved(table, cs);
      for i := 0 to |cs|
        invariant Progress(table, cs, i, start, startMade)
        invariant Unseen() <= old(Unseen())
      {
        error := ResolveNext(table, i, cs, start, startMade);
        if error.Some? {
          return;
        }
      }
      AllResolved(table, cs, start, startMade);
      error := None;
    }

    method ResolveNext(table: Table, i: nat, ghost cs: seq<Constraint>, ghost start: Cache, ghost startMade: Made)
      returns (error: Option<LoadError>)
      requires Progress(table, cs, i, start, startMade) && i < |cs|
      modifies this`cache, this`made, table.constraints[i]
      ensures Steady(table, cs) && Grown(start, startMade)
      ensures Unseen() <= old(Unseen())
      ensures error.None? ==> Progress(table, cs, i + 1, start, startMade)
      ensures error.Some? ==> Unloadable(catalog, NameOf(table))
      decreases Unseen(), 5
    {
      ghost var q, middle, middleMade := NameOf(table), cache, made;
      error := ResolveApart(table, i, cs, catalog[q].keys, Newly(start, cache), middle);
      GrownTwice(start, startMade, middle, middleMade);
      if error.Some? {
        BrokenKeyUnloadable(q, i, catalog);
      } else {
        OneKeyFurther(start, middle, cache, q, cs, i, catalog);
      }
    }

    lemma GrownTwice(start: Cache, startMade: Made, middle: Cache, middleMade: Made)
      requires Extends(start, middle) && MadeMore(startMade, middleMade) && Grown(middle, middleMade)
      ensures Grown(start, startMade)
    {
    }

    /** What was complete before stays so: the key that is filled in is none of those. */
    method ResolveApart(table: Table, i: nat, ghost cs: seq<Constraint>, ghost keys: seq<ForeignKey>,
                        ghost done: set<Table>, ghost middle: Cache)
      returns (error: Option<LoadError>)
      requires Valid() && i < |cs| && cs == table.constraints && Describe(cs, keys) && keys[i].parent.Plain()
      requires AllLinked(cs, i, keys, table.fields, middle, catalog) && AllBlank(cs, i)
      requires AllFinished(done, middle, catalog) && middle == cache
      modifies this`cache, this`made, table.constraints[i]
      ensures Grown(middle, old(made)) && AllBlank(cs, i + 1)
      ensures AllLinked(cs, i, keys, table.fields, middle, catalog) && AllFinished(done, middle, catalog)
      ensures if error.None? then Behind(middle, keys[i].parent) && Linked(cs[i], keys[i], table.fields, cache, catalog)
              else
                || Unloadable(catalog, keys[i].parent)
                || !HasColumns(catalog[keys[i].parent].fields, keys[i].parentColumns)
      decreases Unseen(), 4
    {
      ghost var linked := AllLinked(cs, i, keys, table.fields, middle, catalog);
      assert Described(cs[i], keys[i]) && Blank(cs[i]);
      error := ResolveBeside(table, table.constraints[i], keys[i], done, middle);
      assert linked == AllLinked(cs, i, keys, table.fields, middle, catalog);
    }

    method ResolveBeside(table: Table, c: Constraint, ghost key: ForeignKey, ghost done: set<Table>,
                         ghost middle: Cache)
      returns (error: Option<LoadError>)
      requires Valid() && key.parent.Plain() && Described(c, key) && Blank(c)
      requires AllFinished(done, middle, catalog) && middle == cache
      modifies this`cache, this`made, c`fields, c`referencedTable, c`referencedFields
      ensures Grown(middle, old(made)) && AllFinished(done, middle, catalog)
      ensures if error.None? then Behind(middle, key.parent) && Linked(c, key, table.fields, cache, catalog)
              else Unloadable(catalog, key.parent) || !HasColumns(catalog[key.parent].fields, key.parentColumns)
      decreases Unseen(), 3
    {
      FinishedConstraintsPoint(done, cache, catalog);
      assert c !in ConstraintsOf(done);
      ghost var finished := AllFinished(done, middle, catalog);
      error := Resolve(table, c, key);
      assert finished == AllFinished(done, middle, catalog);
    }

    /** Fills in one foreign key; an unknown child column is not reported. */
    method Resolve(table: Table, c: Constraint, ghost key: ForeignKey) returns (error: Option<LoadError>)
      requires Valid() && key.parent.Plain() && Described(c, key) && Blank(c)
      modifies this`cache, this`made, c`fields, c`referencedTable, c`referencedFields
      ensures Grown(old(cache), old(made))
      ensures error.None? ==> Behind(old(cache), key.parent) && Linked(c, key, table.fields, cache, catalog)
      ensures error.Some? ==>
        Unloadable(catalog, key.parent) || !HasColumns(catalog[key.parent].fields, key.parentColumns)
      decreases Unseen(), 2
    {
      ghost var valid := Valid();
      var _ := c.PopulateFields(table);
      assert valid == Valid();
      error := LoadReferencedTable(c);
    }

    method LoadReferencedTable(c: Constraint) returns (error: Option<LoadError>)
      requires Valid() && '.' !in c.referencedTableSchema && c.referencedFields == [] && c.referencedTable == null
      modifies this`cache, this`made, c`referencedTable, c`referencedFields
      ensures Grown(old(cache), old(made))
      ensures error.None? ==>
        && Behind(old(cache), ParentOf(c))
        && ParentOf(c).FullName() in cache && c.referencedTable == cache[ParentOf(c).FullName()]
        && ParentOf(c) in catalog && HasColumns(catalog[ParentOf(c)].fields, c.referencedColumnsName)
        && SameColumns(c.referencedFields, Located(catalog[ParentOf(c)].fields, c.referencedColumnsName))
      ensures error.Some? ==>
        Unloadable(catalog, ParentOf(c)) || !HasColumns(catalog[ParentOf(c)].fields, c.referencedColumnsName)
      decreases Unseen(), 1
    {
      var parent := ParentOf(c);
      ghost var before := cache;
      var loaded := LoadTable(parent);
      if loaded.Err? {
        return Some(loaded.error);
      }
      error := LinkParent(c, loaded.value, before);
    }

    lemma ParentColumns(parent: Table, q: QName, columns: seq<string>)
      requires Valid() && q.Plain() && q.FullName() in cache && parent == cache[q.FullName()]
      ensures q in catalog
      ensures HasColumns(parent.fields, columns) <==> HasColumns(catalog[q].fields, columns)
      ensures SameColumns(Located(parent.fields, columns), Located(catalog[q].fields, columns))
    {
      FullNameInjective(q, NameOf(parent));
      LocatedIgnoresSkip(parent.fields, catalog[q].fields, columns);
    }

    /** Points the key at the loaded parent; what was loaded with it stays complete. */
    method LinkParent(c: Constraint, parent: Table, ghost start: Cache) returns (error: Option<LoadError>)
      requires Valid() && '.' !in c.referencedTableSchema && c.referencedFields == [] && c.referencedTable == null
      requires Behind(start, ParentOf(c)) && ParentOf(c).FullName() in cache && parent == cache[ParentOf(c).FullName()]
      modifies c`referencedTable, c`referencedFields
      ensures Valid() && Behind(start, ParentOf(c)) && c.referencedTable == parent
      ensures ParentOf(c) in catalog
      ensures error.None? <==> HasColumns(catalog[ParentOf(c)].fields, c.referencedColumnsName)
      ensures error.None? ==>
        SameColumns(c.referencedFields, Located(catalog[ParentOf(c)].fields, c.referencedColumnsName))
    {
      ParentColumns(parent, ParentOf(c), c.referencedColumnsName);
      FinishedConstraintsPoint(Newly(start, cache), cache, catalog);
      assert c !in ConstraintsOf(Newly(start, cache));
      ghost var valid, finished := Valid(), AllFinished(Newly(start, cache), cache, catalog);
      var missing := c.PointAt(parent);
      assert valid == Valid() && finished == AllFinished(Newly(start, cache), cache, catalog);
      error := if missing.None? then None else Some(ReferencedColumnNotFound(missing.value));
    }
  }
}
