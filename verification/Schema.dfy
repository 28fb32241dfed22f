/** Tables and foreign keys as the program holds them in memory (db/data.go,
    db/constraint.go): objects that point at each other and are filled in place. */
module Schema {
  import opened Text
  import opened Fields
  import opened ReferenceGraph

  class Constraint {
    const constraintName: string
    const referencedTableSchema: string
    const referencedTableName: string
    const columnsName: seq<string>
    const referencedColumnsName: seq<string>
    var fields: seq<Field>
    var referencedFields: seq<Field>
    var referencedTable: Table?
    var willBeInsertedDuringThisRun: bool

    constructor (name: string, schema: string, table: string, columns: seq<string>, referencedColumns: seq<string>)
      ensures constraintName == name && referencedTableSchema == schema && referencedTableName == table
      ensures columnsName == columns && referencedColumnsName == referencedColumns
      ensures fields == [] && referencedFields == [] && referencedTable == null && !willBeInsertedDuringThisRun
    {
      constraintName, referencedTableSchema, referencedTableName := name, schema, table;
      columnsName, referencedColumnsName := columns, referencedColumns;
      fields, referencedFields, referencedTable := [], [], null;
      willBeInsertedDuringThisRun := false;
    }

    /** Copies the child-side fields; stops at the first unknown column. */
    method PopulateFields(target: Table) returns (ok: bool)
      modifies this`fields
      ensures fields == old(fields) + Located(target.fields, columnsName)
      ensures ok <==> HasColumns(target.fields, columnsName)
    {
      ghost var all := Located(target.fields, columnsName);
      LocatedIsProjection(target.fields, columnsName);
      for i := 0 to |columnsName|
        invariant i <= |all| && fields == old(fields) + all[..i]
      {
        var field := target.FieldByName(columnsName[i]);
        LocatedUpTo(target.fields, columnsName, i);
        if field.None? {
          assert all[..i] == all;
          return false;
        }
        fields := fields + [field.value];
        assert all[..i + 1] == all[..i] + [all[i]];
      }
      assert all[..|columnsName|] == all;
      ok := true;
    }

    /** Points at the parent and copies its fields; reports the first unknown column. */
    method PointAt(parent: Table) returns (missing: Option<string>)
      modifies this`referencedTable, this`referencedFields
      ensures referencedTable == parent
      ensures referencedFields == old(referencedFields) + Located(parent.fields, referencedColumnsName)
      ensures missing.None? <==> HasColumns(parent.fields, referencedColumnsName)
    {
      referencedTable := parent;
      ghost var all := Located(parent.fields, referencedColumnsName);
      LocatedIsProjection(parent.fields, referencedColumnsName);
      for i := 0 to |referencedColumnsName|
        invariant i <= |all| && referencedFields == old(referencedFields) + all[..i] && referencedTable == parent
      {
        var field := parent.FieldByName(referencedColumnsName[i]);
        LocatedUpTo(parent.fields, referencedColumnsName, i);
        if field.None? {
          assert all[..i] == all;
          return Some(referencedColumnsName[i]);
        }
        referencedFields := referencedFields + [field.value];
        assert all[..i + 1] == all[..i] + [all[i]];
      }
      assert all[..|referencedColumnsName|] == all;
      missing := None;
    }

    method HasWantedField() returns (wanted: bool)
      ensures wanted <==> NeedsSampling(KeyColumns(columnsName, fields))
    {
      for i := 0 to |fields|
        invariant forall k | 0 <= k < i :: fields[k].skip
      {
        if !fields[i].skip {
          return true;
        }
      }
      wanted := false;
    }

    /** Depth-first search that carries the table names on the way down. `ts` only
        bounds the search: any set of tables that contains what they reference. */
    predicate ConstraintLoopTraverser(traversedTables: seq<string>, ghost ts: set<Table>)
      requires Wired(ts) && referencedTable != null && referencedTable in ts
      reads this, ts, ConstraintsOf(ts)
      decreases Unvisited<Table>(TableNames(ts), traversedTables)
    {
      referencedTable.name in traversedTables ||
      (UnvisitedShrinks<Table>(TableNames(ts), traversedTables, referencedTable);
       Covered(ts, referencedTable);
       exists i | 0 <= i < |referencedTable.constraints| ::
         referencedTable.constraints[i].ConstraintLoopTraverser(traversedTables + [referencedTable.name], ts))
    }

    predicate IsLooping(ghost ts: set<Table>)
      requires Wired(ts) && referencedTable != null && referencedTable in ts
      reads this, ts, ConstraintsOf(ts)
    {
      ConstraintLoopTraverser([], ts)
    }
  }

  class Table {
    const schema: string
    const name: string
    var fields: seq<Field>
    var constraints: seq<Constraint>

    constructor (schema: string, name: string, fields: seq<Field>, constraints: seq<Constraint>)
      ensures this.schema == schema && this.name == name
      ensures this.fields == fields && this.constraints == constraints
    {
      this.schema, this.name, this.fields, this.constraints := schema, name, fields, constraints;
    }

    method FieldByName(name: string) returns (found: Option<Field>)
      ensures found == FindField(fields, name)
    {
      assert fields[0..] == fields;
      for i := 0 to |fields|
        invariant FindField(fields, name) == FindField(fields[i..], name)
      {
        assert fields[i..][0] == fields[i] && fields[i..][1..] == fields[i + 1..];
        if SameName(fields[i].columnName, name) {
          return Some(fields[i]);
        }
      }
      found := None;
    }

    // Column selection.

    method IsFieldInAnyConstraints(field: Field) returns (found: bool)
      ensures found <==> InAnyKey(field, KeyViews(constraints))
    {
      for i := 0 to |constraints|
        invariant forall k | 0 <= k < i :: !HasName(KeyViews(constraints)[k].columns, field.columnName)
      {
        assert KeyViews(constraints)[i].columns == constraints[i].columnsName;
        if HasName(constraints[i].columnsName, field.columnName) {
          return true;
        }
      }
      found := false;
    }

    method FieldsToGenerate() returns (chosen: seq<Field>)
      ensures chosen == ToGenerate(fields, KeyViews(constraints))
      ensures forall f :: f in chosen <==>
        && f in fields && !f.skip && IsSupportedType(f.dataType)
        && (f.columnKey == "PRI" && f.autoIncrement ==> f.isNullable)
        && forall c <- constraints :: !HasName(c.columnsName, f.columnName)
    {
      chosen := [];
      ghost var keys := KeyViews(constraints);
      for i := 0 to |fields|
        invariant chosen == ToGenerate(fields[..i], keys)
      {
        var field := fields[i];
        ToGenerateSnoc(fields[..i], keys, field);
        assert fields[..i + 1] == fields[..i] + [field];
        if field.skip {
          continue;
        }
        if !IsSupportedType(field.dataType) {
          continue;
        }
        if !field.isNullable && field.columnKey == "PRI" && field.autoIncrement {
          continue;
        }
        var inKey := IsFieldInAnyConstraints(field);
        if inKey {
          continue;
        }
        chosen := chosen + [field];
      }
      assert fields[..|fields|] == fields;
    }

    /** All fields of a key are sampled as soon as one of them is wanted. */
    method ConstraintsToSample() returns (chosen: seq<Constraint>)
      ensures KeyViews(chosen) == ToSample(KeyViews(constraints))
      ensures forall c <- chosen :: c in constraints
    {
      chosen := [];
      ghost var keys := KeyViews(constraints);
      for i := 0 to |constraints|
        invariant KeyViews(chosen) == ToSample(keys[..i])
        invariant forall c <- chosen :: c in constraints
      {
        var constraint := constraints[i];
        ToSampleSnoc(keys[..i], keys[i]);
        TakeOneMore(keys, i);
        var wanted := constraint.HasWantedField();
        if wanted {
          KeyViewsSnoc(chosen, constraint);
          chosen := chosen + [constraint];
        }
      }
      TakeAll(keys);
    }

    method FieldsToInsertAsDefault() returns (chosen: seq<Field>)
      ensures chosen == ToDefault(fields, KeyViews(constraints))
      ensures forall f :: f in chosen <==>
        && f in fields && !f.isNullable && f.columnKey == "PRI" && f.autoIncrement
        && |ToGenerate(fields, KeyViews(constraints))| == |ToSample(KeyViews(constraints))| == 0
    {
      chosen := [];
      ghost var keys := KeyViews(constraints);
      var generated := FieldsToGenerate();
      assert KeyViews(constraints) == keys;
      var sampled := ConstraintsToSample();
      assert KeyViews(constraints) == keys;
      if |generated| + |sampled| != 0 {
        return;
      }
      chosen := NumberedByTheDatabase();
      assert KeyViews(constraints) == keys;
    }

    method NumberedByTheDatabase() returns (chosen: seq<Field>)
      ensures chosen == AutoPrimaries(fields)
    {
      chosen := [];
      for i := 0 to |fields|
        invariant chosen == AutoPrimaries(fields[..i])
      {
        AutoPrimariesSnoc(fields[..i], fields[i]);
        TakeOneMore(fields, i);
        if !fields[i].isNullable && fields[i].columnKey == "PRI" && fields[i].autoIncrement {
          chosen := chosen + [fields[i]];
        }
      }
      TakeAll(fields);
    }

    method SkipBasedOnIdentifiers(identifiers: set<string>)
      modifies this`fields
      ensures fields == Skipped(old(fields), identifiers)
    {
      if identifiers == {} {
        return;
      }
      for i := 0 to |fields|
        invariant |fields| == |old(fields)|
        invariant fields[..i] == Skipped(old(fields), identifiers)[..i] && fields[i..] == old(fields)[i..]
      {
        var field := fields[i];
        assert field == old(fields)[i] by { assert fields[i..][0] == old(fields)[i..][0]; }
        ghost var before := fields;
        if field.columnName !in identifiers && field.Skippeable() {
          fields := fields[i := field.(skip := true)];
        }
        assert fields[..i + 1] == before[..i] + [Skipped(old(fields), identifiers)[i]];
        assert fields[i + 1..] == before[i..][1..];
      }
    }

    // Ordering.

    /** Marks the keys whose parent table is in this run; never unmarks one. */
    method FlagConstraintThatArePartsOfThisRun(tables: seq<Table>)
      modifies constraints`willBeInsertedDuringThisRun
      ensures forall c <- constraints ::
        c.willBeInsertedDuringThisRun <==>
          old(c.willBeInsertedDuringThisRun) || ListsName(tables, c.referencedTableName)
    {
      for i := 0 to |constraints|
        invariant forall k | 0 <= k < |constraints| ::
          constraints[k].willBeInsertedDuringThisRun <==>
            old(constraints[k].willBeInsertedDuringThisRun) ||
            (ListsName(tables, constraints[k].referencedTableName) && constraints[k] in constraints[..i])
      {
        if ListsName(tables, constraints[i].referencedTableName) {
          constraints[i].willBeInsertedDuringThisRun := true;
        }
        assert constraints[..i + 1] == constraints[..i] + [constraints[i]];
      }
      assert constraints[..|constraints|] == constraints;
    }

    predicate AreAllDependenciesContained(tables: seq<Table>)
      reads this, constraints
    {
      forall i | 0 <= i < |constraints| ::
        constraints[i].willBeInsertedDuringThisRun ==> ListsName(tables, constraints[i].referencedTableName)
    }

    /** Whether any foreign key of this table leads into a loop of table names. */
    predicate HasAnyConstraintLoop(ghost ts: set<Table>)
      requires Wired(ts) && this in ts
      reads ts, ConstraintsOf(ts)
    {
      Covered(ts, this);
      exists i | 0 <= i < |constraints| :: constraints[i].IsLooping(ts)
    }
  }

  ghost function KeyViews(cs: seq<Constraint>): (views: seq<KeyColumns>)
    reads cs
    ensures |views| == |cs|
    ensures forall i | 0 <= i < |cs| :: views[i] == KeyColumns(cs[i].columnsName, cs[i].fields)
  {
    if cs == [] then [] else [KeyColumns(cs[0].columnsName, cs[0].fields)] + KeyViews(cs[1..])
  }

  lemma KeyViewsSnoc(cs: seq<Constraint>, c: Constraint)
    ensures KeyViews(cs + [c]) == KeyViews(cs) + [KeyColumns(c.columnsName, c.fields)]
  {
  }

  /** A table of that name, regardless of case, is in the list. */
  predicate ListsName(tables: seq<Table>, name: string) {
    exists i | 0 <= i < |tables| :: SameName(tables[i].name, name)
  }

  // The object graph as a value.

  /** Lets a comprehension range over the objects that are there. */
  ghost predicate Present(o: object) {
    true
  }

  ghost function ConstraintsOf(ts: set<Table>): set<Constraint>
    reads ts`constraints
  {
    set t, c | t in ts && c in t.constraints :: c
  }

  ghost function Elements(ts: seq<Table>): set<Table> {
    set t <- ts
  }

  lemma Covered(ts: set<Table>, t: Table)
    requires t in ts
    ensures forall c <- t.constraints :: c in ConstraintsOf(ts)
    ensures forall i | 0 <= i < |t.constraints| :: t.constraints[i] in ConstraintsOf(ts)
  {
  }

  /** Every foreign key of these tables points at one of these tables. */
  ghost predicate Wired(ts: set<Table>)
    reads ts, ConstraintsOf(ts)
  {
    forall t, c | t in ts && c in t.constraints :: c.referencedTable != null && c.referencedTable in ts
  }

  /** No constraint object is in the lists of different tables, copies aside. */
  ghost predicate NoneShared(ts: set<Table>)
    reads ts`constraints
  {
    forall t, u, c | t in ts && u in ts && c in t.constraints && c in u.constraints ::
      t.schema == u.schema && t.name == u.name
  }

  ghost function TableNames(ts: set<Table>): map<Table, string> {
    map t | t in ts :: t.name
  }

  ghost function Targets(cs: seq<Constraint>): (targets: seq<Table>)
    requires forall c <- cs :: c.referencedTable != null
    reads cs
    ensures |targets| == |cs| && forall i | 0 <= i < |cs| :: targets[i] == cs[i].referencedTable
  {
    if cs == [] then [] else [cs[0].referencedTable] + Targets(cs[1..])
  }

  ghost function TableRefs(ts: set<Table>): (refs: Refs<Table>)
    requires Wired(ts)
    reads ts, ConstraintsOf(ts)
    ensures refs.Keys == ts == TableNames(ts).Keys && Closed(refs)
    ensures forall t <- ts :: refs[t] == Targets(t.constraints)
  {
    map t | t in ts :: (Covered(ts, t); Targets(t.constraints))
  }

  ghost predicate KeyAt(t: Table, i: nat, now: Refs<Table>)
    reads t, t.constraints
  {
    t in now && |now[t]| == |t.constraints| && (i < |now[t]| ==> t.constraints[i].referencedTable == now[t][i])
  }

  /** The references of these tables, said key by key. */
  ghost predicate GraphNow(ts: set<Table>, now: Refs<Table>)
    reads ts, ConstraintsOf(ts)
  {
    now.Keys == ts && Closed(now) &&
    forall t: Table, i: nat {:trigger KeyAt(t, i, now)} | t in ts :: (Covered(ts, t); KeyAt(t, i, now))
  }

  lemma GraphNowIsRefs(ts: set<Table>, now: Refs<Table>)
    requires GraphNow(ts, now)
    ensures Wired(ts) && TableRefs(ts) == now
  {
    forall t, i | t in ts && 0 <= i < |t.constraints|
      ensures t.constraints[i].referencedTable != null && t.constraints[i].referencedTable in ts
    {
      assert KeyAt(t, i, now);
    }
    forall t <- ts
      ensures TableRefs(ts)[t] == now[t]
    {
      assert KeyAt(t, 0, now);
      forall i | 0 <= i < |t.constraints|
        ensures TableRefs(ts)[t][i] == now[t][i]
      {
        assert KeyAt(t, i, now);
      }
    }
    SameRefs<Table>(TableRefs(ts), now);
  }

  lemma RefsAreGraphNow(ts: set<Table>, now: Refs<Table>)
    requires Wired(ts) && TableRefs(ts) == now
    ensures GraphNow(ts, now)
  {
    forall t: Table, i: nat | t in ts
      ensures KeyAt(t, i, now)
    {
    }
  }

  /** Every key is named after the table it points at. */
  ghost predicate NamesFit(ts: set<Table>, refs: Refs<Table>)
    reads ts`constraints
  {
    forall t <- ts :: t in refs && |refs[t]| == |t.constraints| &&
      forall i | 0 <= i < |t.constraints| :: t.constraints[i].referencedTableName == refs[t][i].name
  }

  ghost predicate NoneFlagged(keys: set<Constraint>)
    reads keys`willBeInsertedDuringThisRun
  {
    forall c <- keys :: !c.willBeInsertedDuringThisRun
  }

  /** The object traversal computes the graph traversal. */
  lemma {:induction false} TraverserIsGraphSearch(c: Constraint, path: seq<string>, ts: set<Table>)
    requires Wired(ts) && c.referencedTable != null && c.referencedTable in ts
    ensures c.ConstraintLoopTraverser(path, ts)
       <==> Looping<Table>(TableNames(ts), TableRefs(ts), path, c.referencedTable)
    decreases Unvisited<Table>(TableNames(ts), path)
  {
    var t := c.referencedTable;
    if t.name !in path {
      var names, refs := TableNames(ts), TableRefs(ts);
      UnvisitedShrinks<Table>(names, path, t);
      forall i | 0 <= i < |t.constraints|
        ensures t.constraints[i].ConstraintLoopTraverser(path + [t.name], ts)
           <==> Looping<Table>(names, refs, path + [t.name], refs[t][i])
      {
        TraverserIsGraphSearch(t.constraints[i], path + [t.name], ts);
      }
    }
  }

  lemma HasAnyVia(t: Table, ts: set<Table>, i: nat)
    requires Wired(ts) && t in ts && i < |t.constraints|
    requires (Covered(ts, t); t.constraints[i].IsLooping(ts))
    ensures t.HasAnyConstraintLoop(ts)
  {
  }

  lemma IsLoopingIsGraphSearch(c: Constraint, ts: set<Table>)
    requires Wired(ts) && c.referencedTable != null && c.referencedTable in ts
    ensures c.IsLooping(ts) <==> LoopsFrom<Table>(TableNames(ts), TableRefs(ts), c.referencedTable)
  {
    TraverserIsGraphSearch(c, [], ts);
  }

  /** `IsLooping` answers true exactly when some walk along the references,
      starting at the referenced table, meets a table name twice. */
  lemma IsLoopingIffNameRepeats(c: Constraint, ts: set<Table>)
    requires Wired(ts) && c.referencedTable != null && c.referencedTable in ts
    ensures c.IsLooping(ts)
       <==> exists w: seq<Table> :: RepeatingWalk<Table>(TableNames(ts), TableRefs(ts), [], c.referencedTable, w)
  {
    TraverserIsGraphSearch(c, [], ts);
    LoopingIffNameRepeats<Table>(TableNames(ts), TableRefs(ts), c.referencedTable);
  }

  /** With distinct table names that is: the referenced table leads to a cycle. */
  lemma IsLoopingIffCycleReachable(c: Constraint, ts: set<Table>)
    requires Wired(ts) && c.referencedTable != null && c.referencedTable in ts
    requires UniqueNames(TableNames(ts))
    ensures c.IsLooping(ts) <==> CycleReachable<Table>(TableRefs(ts), c.referencedTable)
  {
    TraverserIsGraphSearch(c, [], ts);
    LoopingIffCycleReachable<Table>(TableNames(ts), TableRefs(ts), c.referencedTable);
  }
}
