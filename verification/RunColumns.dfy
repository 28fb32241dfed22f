/** What the statements about columns ask of the keys holds for the keys the
    program builds: those it loads and those it makes of joins. */
module RunColumns {
  import opened Text
  import opened Fields
  import opened Schema
  import opened Loader
  import opened Loading
  import opened VirtualJoins
  import opened JoinSteps
  import opened VirtualKeys
  import opened RowLayout

  /** The columns of each table are named differently, and none is marked unless it may be. */
  ghost predicate OrderlyColumns(catalog: Catalog) {
    forall q <- catalog :: DistinctNames(NamesOf(catalog[q].fields)) && MarksFit(catalog[q].fields)
  }

  /** Each key of a loaded table copied its columns from the table as it was read. */
  lemma LoadedKeysAreTaken(loader: TableLoader, t: Table) returns (taken: seq<seq<Field>>)
    requires Complete(loader) && OrderlyColumns(loader.catalog) && t in loader.cache.Values
    ensures KeysTakenFrom(KeyViews(t.constraints), taken, t.fields) && DistinctNames(NamesOf(t.fields))
  {
    assert Finished(t, loader.cache, loader.catalog);
    var def := loader.catalog[NameOf(t)];
    taken := seq(|t.constraints|, i => def.fields);
    forall i | 0 <= i < |t.constraints|
      ensures t.constraints[i].fields == Located(def.fields, t.constraints[i].columnsName)
    {
      assert Linked(t.constraints[i], def.keys[i], def.fields, loader.cache, loader.catalog);
    }
    SameColumnsSameNames(t.fields, def.fields);
  }

  lemma SameColumnsSameNames(a: seq<Field>, b: seq<Field>)
    requires SameColumns(a, b)
    ensures NamesOf(a) == NamesOf(b) && SameColumns(b, a)
  {
    forall i | 0 <= i < |a|
      ensures a[i].columnName == b[i].columnName
    {
      assert a[i].(skip := false).columnName == b[i].(skip := false).columnName;
    }
  }

  /** A key made of a join copies its columns from the table as it is then. */
  lemma JoinedKeyIsTaken(t: Table, before: seq<Constraint>, v: Verdict, cache: Cache, taken: seq<seq<Field>>)
    requires OneKeyMore(t, before, v, cache) && MarksFit(t.fields)
    requires KeysTakenFrom(KeyViews(before), taken, t.fields)
    ensures KeysTakenFrom(KeyViews(t.constraints), taken + [t.fields], t.fields)
  {
    var c := t.constraints[|before|];
    assert t.constraints == before + [c];
    KeyViewsSnoc(before, c);
    assert c.columnsName == v.link.columns;
  }

  /** So for a loaded table the statement names a column twice exactly when two
      sampled keys have copied the same. */
  lemma LoadedHeaderDistinctIff(loader: TableLoader, t: Table)
    requires Complete(loader) && OrderlyColumns(loader.catalog) && t in loader.cache.Values
    ensures
      var keys := KeyViews(t.constraints);
      DistinctNames(NamesOf(Header(t.fields, keys))) <==> DistinctNames(CopiedColumns(ToSample(keys)))
  {
    var taken := LoadedKeysAreTaken(loader, t);
    HeaderDistinctIff(t.fields, KeyViews(t.constraints), taken);
  }

  /** Joins that were read name as many columns on the one side as on the other. */
  lemma ParsedJoinsAreEven(value: string, js: seq<VirtualJoin>, i: nat)
    requires DecodeAll(Split(value, ';')) == Ok(js) && i < |js|
    ensures |js[i].left.columns| == |js[i].right.columns| >= 1
  {
    DecodeRoundTrip(value, js);
  }

  /** So a key made of one has equally long sides exactly when the child has all
      the columns the join names. */
  lemma JoinedKeyAlignedIff(value: string, js: seq<VirtualJoin>, i: nat, c: Constraint, t: Table, id: string,
                            flipped: bool, cache: Cache, catalog: Catalog)
    requires DecodeAll(Split(value, ';')) == Ok(js) && i < |js|
    requires
      var parent, child := if flipped then js[i].right else js[i].left, if flipped then js[i].left else js[i].right;
      Linked(c, KeyFor(t.schema, parent, child, id), t.fields, cache, catalog)
    ensures Aligned(c) <==> HasColumns(t.fields, if flipped then js[i].left.columns else js[i].right.columns)
  {
    ParsedJoinsAreEven(value, js, i);
    var parent, child := if flipped then js[i].right else js[i].left, if flipped then js[i].left else js[i].right;
    AlignedIffColumnsKnown(c, KeyFor(t.schema, parent, child, id), t.fields, cache, catalog);
  }
}
