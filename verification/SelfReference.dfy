/** Splitting a table that references itself into a copy, inserted first
    without the self-reference, and the original (db/data.go). */
module SelfReference {
  import opened Text
  import opened Fields
  import opened ReferenceGraph
  import opened Schema

  datatype SplitOutcome =
    | NoSelfReference
    | ColumnNotNullable(field: Field, constraintName: string)
    | Split(copy: Table)

  ghost predicate AllPoint(t: Table)
    reads t, t.constraints
  {
    forall c <- t.constraints :: c.referencedTable != null
  }

  predicate PointsHome(t: Table, c: Constraint)
    reads c
  {
    c.referencedTable != null && c.referencedTable.name == t.name
  }

  /** The `i`-th key is the first one that leads back to the table's own name. */
  ghost predicate FirstHome(t: Table, cs: seq<Constraint>, i: nat)
    reads cs
  {
    i < |cs| && PointsHome(t, cs[i]) && forall k | 0 <= k < i :: !PointsHome(t, cs[k])
  }

  /** Marks exactly the fields with one of these names. */
  function Marked(fields: seq<Field>, columns: seq<string>): (marked: seq<Field>)
    ensures |marked| == |fields|
    ensures forall i | 0 <= i < |fields| ::
      marked[i] == (if HasName(columns, fields[i].columnName) then fields[i].(skip := true) else fields[i])
  {
    seq(|fields|, i requires 0 <= i < |fields| =>
      if HasName(columns, fields[i].columnName) then fields[i].(skip := true) else fields[i])
  }

  method IdentifyAndResolveSelfReferencingConstraintLoop(t: Table) returns (r: SplitOutcome, ghost cidx: nat)
    requires AllPoint(t)
    modifies t.constraints`referencedTable
    ensures r.NoSelfReference? <==> forall c <- t.constraints :: !old(PointsHome(t, c))
    ensures !r.NoSelfReference? ==> cidx < |t.constraints| && old(FirstHome(t, t.constraints, cidx))
    // an unusable self-reference is reported: one of its columns must not be NULL
    ensures r.ColumnNotNullable? ==> r.field in t.constraints[cidx].fields && !r.field.isNullable
    ensures !r.Split? ==> forall c <- t.constraints :: c.referencedTable == old(c.referencedTable)
    // otherwise the copy lacks exactly that key, skips exactly its columns, and is what the key now points at
    ensures r.Split? ==>
      && (forall f <- t.constraints[cidx].fields :: f.isNullable)
      && fresh(r.copy) && r.copy.schema == t.schema && r.copy.name == t.name
      && r.copy.fields == Marked(t.fields, t.constraints[cidx].columnsName)
      && r.copy.constraints == t.constraints[..cidx] + t.constraints[cidx + 1..]
      && t.constraints[cidx].referencedTable == r.copy
      && forall c <- t.constraints :: c != t.constraints[cidx] ==> c.referencedTable == old(c.referencedTable)
  {
    cidx := 0;
    for i := 0 to |t.constraints|
      invariant forall k | 0 <= k < i :: !PointsHome(t, t.constraints[k])
      invariant forall c <- t.constraints :: c.referencedTable == old(c.referencedTable)
    {
      var c := t.constraints[i];
      if c.referencedTable.name == t.name {
        cidx := i;
        assert c in t.constraints && old(PointsHome(t, c));
        for j := 0 to |c.fields|
          invariant forall k | 0 <= k < j :: c.fields[k].isNullable
        {
          if !c.fields[j].isNullable {
            return ColumnNotNullable(c.fields[j], c.constraintName), cidx;
          }
        }
        var copiedFields := MarkColumns(t.fields, c.columnsName);
        var copiedConstraints := t.constraints[..i] + t.constraints[i + 1..];
        var copiedTable := new Table(t.schema, t.name, copiedFields, copiedConstraints);
        c.referencedTable := copiedTable;
        return Split(copiedTable), cidx;
      }
    }
    r := NoSelfReference;
  }

  method MarkColumns(fields: seq<Field>, columns: seq<string>) returns (copied: seq<Field>)
    ensures copied == Marked(fields, columns)
  {
    copied := fields;
    for fidx := 0 to |fields|
      invariant |copied| == |fields| && copied[fidx..] == fields[fidx..]
      invariant forall k | 0 <= k < fidx :: copied[k] == Marked(fields, columns)[k]
    {
      assert copied[fidx..][0] == fields[fidx..][0];
      if HasName(columns, fields[fidx].columnName) {
        copied := copied[fidx := fields[fidx].(skip := true)];
      }
      assert copied[fidx + 1..] == fields[fidx + 1..] by {
        assert fields[fidx + 1..] == fields[fidx..][1..];
      }
    }
  }

  /** Splitting does not help the tables that reference the split one: whatever
      leads to a table with a self-reference, split or not, is reported as looping,
      because table and copy share their name. */
  lemma ReferencingASplitTableLoops(c: Constraint, home: Constraint, ts: set<Table>)
    requires Wired(ts) && c.referencedTable != null && c.referencedTable in ts
    requires home in c.referencedTable.constraints && PointsHome(c.referencedTable, home)
    ensures c.IsLooping(ts)
  {
    var t := c.referencedTable;
    var names, refs := TableNames(ts), TableRefs(ts);
    var i :| 0 <= i < |t.constraints| && t.constraints[i] == home;
    assert refs[t][i] == home.referencedTable;
    var w := [t, home.referencedTable];
    assert names[w[0]] == names[w[1]];
    assert IsWalk<Table>(refs, w) && RepeatsAt<Table>(names, [], w, 1);
    TraverserIsGraphSearch(c, [], ts);
    WalkIsDetected<Table>(names, refs, [], w, 1);
  }
}
