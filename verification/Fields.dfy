/** Columns as values: looking them up by name, and the choice of columns an
    insert statement will name (the selectors of db/data.go). */
module Fields {
  import opened Text

  datatype Field = Field(
    columnName: string,
    isNullable: bool,
    dataType: string,
    autoIncrement: bool,
    columnKey: string,
    hasDefaultValue: bool,
    skip: bool)
  {
    predicate Skippeable() {
      isNullable || hasDefaultValue
    }
  }

  /** The first field with that name, regardless of case. */
  function FindField(fields: seq<Field>, name: string): Option<Field> {
    if fields == [] then None
    else if SameName(fields[0].columnName, name) then Some(fields[0])
    else FindField(fields[1..], name)
  }

  predicate HasColumns(fields: seq<Field>, columns: seq<string>) {
    forall i | 0 <= i < |columns| :: FindField(fields, columns[i]).Some?
  }

  /** Copies of the named fields in the order of the names, up to the first
      name that is not a field. */
  function Located(fields: seq<Field>, columns: seq<string>): seq<Field> {
    if columns == [] || FindField(fields, columns[0]).None? then []
    else [FindField(fields, columns[0]).value] + Located(fields, columns[1..])
  }

  /** `Located` is a projection, complete exactly when every name is a field. */
  lemma {:induction false} LocatedIsProjection(fields: seq<Field>, columns: seq<string>)
    ensures |Located(fields, columns)| <= |columns|
    ensures |Located(fields, columns)| == |columns| <==> HasColumns(fields, columns)
    ensures forall i | 0 <= i < |Located(fields, columns)| ::
      FindField(fields, columns[i]) == Some(Located(fields, columns)[i])
  {
    if columns != [] && FindField(fields, columns[0]).Some? {
      LocatedIsProjection(fields, columns[1..]);
      assert columns == [columns[0]] + columns[1..];
    }
  }

  /** Equal but for the `skip` mark. */
  predicate SameColumns(a: seq<Field>, b: seq<Field>) {
    |a| == |b| && forall i | 0 <= i < |a| :: a[i].(skip := false) == b[i].(skip := false)
  }

  lemma {:induction false} FindIgnoresSkip(a: seq<Field>, b: seq<Field>, name: string)
    requires SameColumns(a, b)
    ensures FindField(a, name).Some? <==> FindField(b, name).Some?
    ensures FindField(a, name).Some? ==> SameColumns([FindField(a, name).value], [FindField(b, name).value])
  {
    if a != [] {
      assert a[0].(skip := false) == b[0].(skip := false);
      assert a[0].columnName == a[0].(skip := false).columnName == b[0].columnName;
      FindIgnoresSkip(a[1..], b[1..], name);
    }
  }

  lemma {:induction false} LocatedIgnoresSkip(a: seq<Field>, b: seq<Field>, columns: seq<string>)
    requires SameColumns(a, b)
    ensures HasColumns(a, columns) <==> HasColumns(b, columns)
    ensures SameColumns(Located(a, columns), Located(b, columns))
  {
    forall i | 0 <= i < |columns|
      ensures FindField(a, columns[i]).Some? <==> FindField(b, columns[i]).Some?
    {
      FindIgnoresSkip(a, b, columns[i]);
    }
    if columns != [] {
      FindIgnoresSkip(a, b, columns[0]);
      LocatedIgnoresSkip(a, b, columns[1..]);
    }
  }

  lemma {:induction false} LocatedUpTo(fields: seq<Field>, columns: seq<string>, i: nat)
    requires i < |columns| && i <= |Located(fields, columns)|
    ensures i < |Located(fields, columns)| <==> FindField(fields, columns[i]).Some?
  {
    LocatedIsProjection(fields, columns);
    if i > 0 {
      LocatedUpTo(fields, columns[1..], i - 1);
    }
  }

  // Which columns an insert fills, and how.

  const SUPPORTED_TYPES := {
    "tinyint", "smallint", "mediumint", "int", "integer", "bigint", "float", "decimal", "double",
    "char", "varchar", "date", "datetime", "timestamp", "time", "year",
    "tinyblob", "tinytext", "blob", "text", "mediumblob", "mediumtext", "longblob", "longtext",
    "binary", "varbinary", "enum", "set", "uuid", "bool", "boolean"
  }

  predicate IsSupportedType(dataType: string) {
    dataType in SUPPORTED_TYPES
  }

  /** A foreign key as the selectors see it: its column names, and the copies
      of the table's fields taken when the table was loaded. */
  datatype KeyColumns = KeyColumns(columns: seq<string>, fields: seq<Field>)

  predicate HasName(columns: seq<string>, name: string) {
    exists i | 0 <= i < |columns| :: SameName(columns[i], name)
  }

  predicate InAnyKey(f: Field, keys: seq<KeyColumns>) {
    exists i | 0 <= i < |keys| :: HasName(keys[i].columns, f.columnName)
  }

  /** The database numbers this column itself. */
  predicate AutoPrimary(f: Field) {
    !f.isNullable && f.columnKey == "PRI" && f.autoIncrement
  }

  predicate IsGenerated(f: Field, keys: seq<KeyColumns>) {
    !f.skip && IsSupportedType(f.dataType) && !AutoPrimary(f) && !InAnyKey(f, keys)
  }

  predicate NeedsSampling(k: KeyColumns) {
    exists i | 0 <= i < |k.fields| :: !k.fields[i].skip
  }

  function ToGenerate(fields: seq<Field>, keys: seq<KeyColumns>): (chosen: seq<Field>)
    ensures forall f :: f in chosen <==> f in fields && IsGenerated(f, keys)
  {
    if fields == [] then []
    else (if IsGenerated(fields[0], keys) then [fields[0]] else []) + ToGenerate(fields[1..], keys)
  }

  function ToSample(keys: seq<KeyColumns>): (chosen: seq<KeyColumns>)
    ensures forall k :: k in chosen <==> k in keys && NeedsSampling(k)
  {
    if keys == [] then []
    else (if NeedsSampling(keys[0]) then [keys[0]] else []) + ToSample(keys[1..])
  }

  function AutoPrimaries(fields: seq<Field>): (chosen: seq<Field>)
    ensures forall f :: f in chosen <==> f in fields && AutoPrimary(f)
  {
    if fields == [] then []
    else (if AutoPrimary(fields[0]) then [fields[0]] else []) + AutoPrimaries(fields[1..])
  }

  function ToDefault(fields: seq<Field>, keys: seq<KeyColumns>): seq<Field> {
    if |ToGenerate(fields, keys)| + |ToSample(keys)| != 0 then [] else AutoPrimaries(fields)
  }

  function FieldsOf(keys: seq<KeyColumns>): seq<Field> {
    if keys == [] then [] else keys[0].fields + FieldsOf(keys[1..])
  }

  function ColumnsOf(keys: seq<KeyColumns>): seq<string> {
    if keys == [] then [] else keys[0].columns + ColumnsOf(keys[1..])
  }

  /** A column is generated exactly if it is not marked, of a known type, not a
      primary key that the database numbers, and named by no key. */
  lemma GeneratedIff(fields: seq<Field>, keys: seq<KeyColumns>, f: Field)
    ensures f in ToGenerate(fields, keys) <==>
      && f in fields && !f.skip && IsSupportedType(f.dataType)
      && (f.columnKey == "PRI" && f.autoIncrement ==> f.isNullable)
      && forall i, j | 0 <= i < |keys| && 0 <= j < |keys[i].columns| :: !SameName(keys[i].columns[j], f.columnName)
  {
  }

  /** A column is inserted as DEFAULT exactly if it is a primary key that the
      database numbers, and nothing else is inserted: no column is generated and all
      copies of columns in keys are marked. */
  lemma DefaultIff(fields: seq<Field>, keys: seq<KeyColumns>, f: Field)
    ensures f in ToDefault(fields, keys) <==>
      && f in fields && !f.isNullable && f.columnKey == "PRI" && f.autoIncrement
      && (forall g <- fields :: g !in ToGenerate(fields, keys))
      && forall i, j | 0 <= i < |keys| && 0 <= j < |keys[i].fields| :: keys[i].fields[j].skip
  {
    if ToGenerate(fields, keys) != [] {
      assert ToGenerate(fields, keys)[0] in fields;
    }
    if ToSample(keys) != [] {
      var k := ToSample(keys)[0];
      assert k in ToSample(keys);
      var i :| 0 <= i < |keys| && keys[i] == k;
      assert NeedsSampling(keys[i]);
    } else {
      forall i, j | 0 <= i < |keys| && 0 <= j < |keys[i].fields|
        ensures keys[i].fields[j].skip
      {
        assert keys[i] in keys && keys[i] !in ToSample(keys);
      }
    }
  }

  // One more element at the end, as the selectors' loops add it.

  lemma {:induction false} ToGenerateSnoc(fields: seq<Field>, keys: seq<KeyColumns>, f: Field)
    ensures ToGenerate(fields + [f], keys) == ToGenerate(fields, keys) + if IsGenerated(f, keys) then [f] else []
  {
    var more := fields + [f];
    if fields != [] {
      ToGenerateSnoc(fields[1..], keys, f);
      assert more[0] == fields[0] && more[1..] == fields[1..] + [f];
    } else {
      assert more[1..] == [];
    }
  }

  lemma {:induction false} ToSampleSnoc(keys: seq<KeyColumns>, k: KeyColumns)
    ensures ToSample(keys + [k]) == ToSample(keys) + if NeedsSampling(k) then [k] else []
  {
    if keys != [] {
      ToSampleSnoc(keys[1..], k);
      assert (keys + [k])[1..] == keys[1..] + [k];
    }
  }

  lemma {:induction false} AutoPrimariesSnoc(fields: seq<Field>, f: Field)
    ensures AutoPrimaries(fields + [f]) == AutoPrimaries(fields) + if AutoPrimary(f) then [f] else []
  {
    if fields != [] {
      AutoPrimariesSnoc(fields[1..], f);
      assert (fields + [f])[1..] == fields[1..] + [f];
    }
  }

  /** The columns named by the insert statement, in order. */
  function Header(fields: seq<Field>, keys: seq<KeyColumns>): seq<Field> {
    ToDefault(fields, keys) + ToGenerate(fields, keys) + FieldsOf(ToSample(keys))
  }

  /** Marks everything outside the whitelist that can be left out; an empty
      whitelist marks nothing. */
  function Skipped(fields: seq<Field>, identifiers: set<string>): (marked: seq<Field>)
    ensures |marked| == |fields|
  {
    if identifiers == {} then
      fields
    else
      seq(|fields|, i requires 0 <= i < |fields| =>
        if fields[i].columnName !in identifiers && fields[i].Skippeable() then fields[i].(skip := true) else fields[i])
  }

  // What that choice guarantees.

  predicate DistinctNames(names: seq<string>) {
    forall i, j | 0 <= i < j < |names| :: !SameName(names[i], names[j])
  }

  function NamesOf(fields: seq<Field>): (names: seq<string>)
    ensures |names| == |fields| && forall i | 0 <= i < |fields| :: names[i] == fields[i].columnName
  {
    seq(|fields|, i requires 0 <= i < |fields| => fields[i].columnName)
  }

  ghost predicate SameNames(a: seq<string>, b: seq<string>) {
    |a| == |b| && forall i | 0 <= i < |a| :: SameName(a[i], b[i])
  }

  /** Only columns that can be left out are marked. */
  predicate MarksFit(fields: seq<Field>) {
    forall i | 0 <= i < |fields| && fields[i].skip :: fields[i].Skippeable()
  }

  /** Keys as the program builds them, loaded or virtual: `taken[i]` are the
      table's fields at the moment the `i`-th key copied its columns. Marks may have been
      set before that moment or after it, and the copying stops at an unknown column. */
  ghost predicate KeysTakenFrom(keys: seq<KeyColumns>, taken: seq<seq<Field>>, fields: seq<Field>) {
    && |taken| == |keys|
    && forall i | 0 <= i < |keys| ::
         keys[i].fields == Located(taken[i], keys[i].columns) && SameColumns(taken[i], fields) && MarksFit(taken[i])
  }

  /** The columns that the key has copies of. */
  function Copied(k: KeyColumns): seq<string> {
    if |k.fields| <= |k.columns| then k.columns[..|k.fields|] else k.columns
  }

  function CopiedColumns(keys: seq<KeyColumns>): seq<string> {
    if keys == [] then [] else Copied(keys[0]) + CopiedColumns(keys[1..])
  }

  lemma {:induction false} FoundIsMember(fields: seq<Field>, name: string)
    ensures FindField(fields, name).Some? ==>
      FindField(fields, name).value in fields && SameName(FindField(fields, name).value.columnName, name)
    ensures FindField(fields, name).None? ==> forall f <- fields :: !SameName(f.columnName, name)
  {
    if fields != [] {
      FoundIsMember(fields[1..], name);
      assert fields == [fields[0]] + fields[1..];
    }
  }

  /** A key's copies are named like its columns. */
  lemma CopiesAreNamed(k: KeyColumns, taken: seq<Field>)
    requires k.fields == Located(taken, k.columns)
    ensures SameNames(NamesOf(k.fields), Copied(k))
    ensures |k.fields| == |k.columns| <==> HasColumns(taken, k.columns)
  {
    LocatedIsProjection(taken, k.columns);
    forall i | 0 <= i < |k.fields|
      ensures SameName(k.fields[i].columnName, Copied(k)[i])
    {
      FoundIsMember(taken, k.columns[i]);
    }
  }

  ghost predicate AllNamed(keys: seq<KeyColumns>) {
    forall k <- keys :: SameNames(NamesOf(k.fields), Copied(k))
  }

  lemma TakenAreNamed(keys: seq<KeyColumns>, taken: seq<seq<Field>>, fields: seq<Field>)
    requires KeysTakenFrom(keys, taken, fields)
    ensures AllNamed(keys)
  {
    forall i | 0 <= i < |keys|
      ensures SameNames(NamesOf(keys[i].fields), Copied(keys[i]))
    {
      CopiesAreNamed(keys[i], taken[i]);
    }
  }

  lemma {:induction false} FieldsOfNames(keys: seq<KeyColumns>)
    requires AllNamed(keys)
    ensures SameNames(NamesOf(FieldsOf(keys)), CopiedColumns(keys))
  {
    if keys != [] {
      assert keys[0] in keys && forall k <- keys[1..] :: k in keys;
      FieldsOfNames(keys[1..]);
      NamesOfConcat(keys[0].fields, FieldsOf(keys[1..]));
      SameNamesConcat(NamesOf(keys[0].fields), Copied(keys[0]), NamesOf(FieldsOf(keys[1..])), CopiedColumns(keys[1..]));
    }
  }

  lemma NamesOfConcat(a: seq<Field>, b: seq<Field>)
    ensures NamesOf(a + b) == NamesOf(a) + NamesOf(b)
  {
  }

  lemma SameNamesConcat(a: seq<string>, b: seq<string>, c: seq<string>, d: seq<string>)
    requires SameNames(a, b) && SameNames(c, d)
    ensures SameNames(a + c, b + d)
  {
  }

  /** The fields of some keys are the fields of one of them. */
  lemma {:induction false} FieldOfKey(keys: seq<KeyColumns>, f: Field)
    ensures f in FieldsOf(keys) <==> exists k <- keys :: f in k.fields
  {
    if keys != [] {
      FieldOfKey(keys[1..], f);
      assert keys == [keys[0]] + keys[1..];
    }
  }

  lemma CopyIsNamedInKey(k: KeyColumns, f: Field)
    requires SameNames(NamesOf(k.fields), Copied(k)) && f in k.fields
    ensures HasName(k.columns, f.columnName)
  {
    var i :| 0 <= i < |k.fields| && k.fields[i] == f;
    assert SameName(NamesOf(k.fields)[i], Copied(k)[i]) && Copied(k)[i] == k.columns[i];
  }

  /** What some key names is not generated. */
  lemma SampledNotGenerated(f: Field, g: Field, keys: seq<KeyColumns>)
    requires AllNamed(keys) && g in FieldsOf(ToSample(keys)) && SameName(f.columnName, g.columnName)
    ensures InAnyKey(f, keys)
  {
    FieldOfKey(ToSample(keys), g);
    var k :| k in ToSample(keys) && g in k.fields;
    CopyIsNamedInKey(k, g);
    var i :| 0 <= i < |keys| && keys[i] == k;
    var c :| 0 <= c < |k.columns| && SameName(k.columns[c], g.columnName);
    assert SameName(k.columns[c], f.columnName) && HasName(keys[i].columns, f.columnName);
  }

  lemma {:induction false} GeneratedDistinct(fields: seq<Field>, keys: seq<KeyColumns>)
    requires DistinctNames(NamesOf(fields))
    ensures DistinctNames(NamesOf(ToGenerate(fields, keys))) && DistinctNames(NamesOf(AutoPrimaries(fields)))
  {
    if fields != [] {
      var rest := fields[1..];
      assert NamesOf(fields)[1..] == NamesOf(rest);
      GeneratedDistinct(rest, keys);
      forall f <- rest
        ensures !SameName(fields[0].columnName, f.columnName)
      {
        var j :| 0 <= j < |rest| && rest[j] == f;
        assert NamesOf(fields)[j + 1] == f.columnName;
      }
      HeadStaysDistinct(fields[0], ToGenerate(rest, keys), rest);
      HeadStaysDistinct(fields[0], AutoPrimaries(rest), rest);
    }
  }

  lemma HeadStaysDistinct(f: Field, chosen: seq<Field>, rest: seq<Field>)
    requires DistinctNames(NamesOf(chosen)) && forall g <- chosen :: g in rest
    requires forall g <- rest :: !SameName(f.columnName, g.columnName)
    ensures DistinctNames(NamesOf([f] + chosen))
  {
    forall j | 0 <= j < |chosen|
      ensures !SameName(f.columnName, chosen[j].columnName)
    {
      assert chosen[j] in rest;
    }
    assert NamesOf([f] + chosen) == [f.columnName] + NamesOf(chosen);
  }

  lemma GeneratedApart(fields: seq<Field>, keys: seq<KeyColumns>)
    requires AllNamed(keys)
    ensures Apart(NamesOf(ToGenerate(fields, keys)), NamesOf(FieldsOf(ToSample(keys))))
  {
    var generated, sampled := ToGenerate(fields, keys), FieldsOf(ToSample(keys));
    forall i, j | 0 <= i < |generated| && 0 <= j < |sampled|
      ensures !SameName(NamesOf(generated)[i], NamesOf(sampled)[j])
    {
      assert generated[i] in generated && sampled[j] in sampled;
      if SameName(generated[i].columnName, sampled[j].columnName) {
        SampledNotGenerated(generated[i], sampled[j], keys);
      }
    }
  }

  lemma SampledPartDistinctIff(keys: seq<KeyColumns>)
    requires AllNamed(ToSample(keys))
    ensures DistinctNames(NamesOf(FieldsOf(ToSample(keys)))) <==> DistinctNames(CopiedColumns(ToSample(keys)))
  {
    FieldsOfNames(ToSample(keys));
    SameNamesSameDistinctness(NamesOf(FieldsOf(ToSample(keys))), CopiedColumns(ToSample(keys)));
  }

  lemma FilledPartDistinctIff(generated: seq<Field>, sampled: seq<Field>)
    requires DistinctNames(NamesOf(generated)) && Apart(NamesOf(generated), NamesOf(sampled))
    ensures DistinctNames(NamesOf(generated + sampled)) <==> DistinctNames(NamesOf(sampled))
  {
    NamesOfConcat(generated, sampled);
    DistinctConcat(NamesOf(generated), NamesOf(sampled));
  }

  lemma HeaderParts(fields: seq<Field>, keys: seq<KeyColumns>)
    ensures ToDefault(fields, keys) != [] ==> Header(fields, keys) == AutoPrimaries(fields) && ToSample(keys) == []
    ensures ToDefault(fields, keys) == [] ==>
      Header(fields, keys) == ToGenerate(fields, keys) + FieldsOf(ToSample(keys))
  {
  }

  /** The insert statement names a column twice exactly when two of the sampled
      keys (or one key, twice) have copied the same column. */
  lemma HeaderDistinctIff(fields: seq<Field>, keys: seq<KeyColumns>, taken: seq<seq<Field>>)
    requires DistinctNames(NamesOf(fields)) && KeysTakenFrom(keys, taken, fields)
    ensures DistinctNames(NamesOf(Header(fields, keys))) <==> DistinctNames(CopiedColumns(ToSample(keys)))
  {
    HeaderParts(fields, keys);
    GeneratedDistinct(fields, keys);
    if ToDefault(fields, keys) == [] {
      TakenAreNamed(keys, taken, fields);
      GeneratedApart(fields, keys);
      SampledPartDistinctIff(keys);
      FilledPartDistinctIff(ToGenerate(fields, keys), FieldsOf(ToSample(keys)));
    }
  }

  /** Keys that found all their columns have copied all of them. */
  lemma {:induction false} CompleteKeysCopyAll(keys: seq<KeyColumns>)
    requires forall k <- keys :: |k.fields| == |k.columns|
    ensures CopiedColumns(keys) == ColumnsOf(keys)
  {
    if keys != [] {
      assert keys[0] in keys && forall k <- keys[1..] :: k in keys;
      TakeAll(keys[0].columns);
      CompleteKeysCopyAll(keys[1..]);
    }
  }

  /** Keys whose columns the table has got a copy of each. */
  lemma KnownColumnsCopied(keys: seq<KeyColumns>, taken: seq<seq<Field>>, fields: seq<Field>)
    requires KeysTakenFrom(keys, taken, fields) && forall k <- keys :: HasColumns(fields, k.columns)
    ensures forall k <- ToSample(keys) :: |k.fields| == |k.columns|
  {
    forall n | 0 <= n < |keys|
      ensures |keys[n].fields| == |keys[n].columns|
    {
      assert keys[n] in keys;
      LocatedIgnoresSkip(taken[n], fields, keys[n].columns);
      LocatedIsProjection(fields, keys[n].columns);
    }
  }

  /** If the table has all columns its keys name, the insert statement names none
      twice exactly when no two of the sampled keys name the same. */
  lemma HeaderDistinctWhenKnown(fields: seq<Field>, keys: seq<KeyColumns>, taken: seq<seq<Field>>)
    requires DistinctNames(NamesOf(fields)) && KeysTakenFrom(keys, taken, fields)
    requires forall k <- keys :: HasColumns(fields, k.columns)
    ensures DistinctNames(NamesOf(Header(fields, keys))) <==> DistinctNames(ColumnsOf(ToSample(keys)))
  {
    KnownColumnsCopied(keys, taken, fields);
    CompleteKeysCopyAll(ToSample(keys));
    HeaderDistinctIff(fields, keys, taken);
  }

  lemma SampledColumnsCons(keys: seq<KeyColumns>)
    requires keys != []
    ensures ColumnsOf(ToSample(keys))
         == (if NeedsSampling(keys[0]) then keys[0].columns else []) + ColumnsOf(ToSample(keys[1..]))
  {
    var rest := ToSample(keys[1..]);
    assert ([keys[0]] + rest)[1..] == rest && [] + rest == rest && [] + ColumnsOf(rest) == ColumnsOf(rest);
  }

  lemma {:induction false} SampledColumnsAmong(keys: seq<KeyColumns>, c: string)
    requires c in ColumnsOf(ToSample(keys))
    ensures c in ColumnsOf(keys)
  {
    if keys != [] {
      SampledColumnsCons(keys);
      if c in ColumnsOf(ToSample(keys[1..])) {
        SampledColumnsAmong(keys[1..], c);
      }
    }
  }

  lemma DistinctHalves(a: seq<string>, b: seq<string>)
    requires DistinctNames(a + b)
    ensures DistinctNames(a) && DistinctNames(b) && Apart(a, b)
  {
    var both := a + b;
    forall i, j | 0 <= i < j < |a|
      ensures !SameName(a[i], a[j])
    {
      assert both[i] == a[i] && both[j] == a[j];
    }
    forall i, j | 0 <= i < j < |b|
      ensures !SameName(b[i], b[j])
    {
      assert both[|a| + i] == b[i] && both[|a| + j] == b[j];
    }
    forall i, j | 0 <= i < |a| && 0 <= j < |b|
      ensures !SameName(a[i], b[j])
    {
      assert both[i] == a[i] && both[|a| + j] == b[j];
    }
  }

  /** Keys that share no column share none when only some are sampled. */
  lemma {:induction false} SampledColumnsDistinct(keys: seq<KeyColumns>)
    requires DistinctNames(ColumnsOf(keys))
    ensures DistinctNames(ColumnsOf(ToSample(keys)))
  {
    if keys != [] {
      var own, rest := keys[0].columns, keys[1..];
      DistinctHalves(own, ColumnsOf(rest));
      SampledColumnsDistinct(rest);
      SampledColumnsCons(keys);
      if NeedsSampling(keys[0]) {
        var others := ColumnsOf(ToSample(rest));
        forall i, j | 0 <= i < |own| && 0 <= j < |others|
          ensures !SameName(own[i], others[j])
        {
          SampledColumnsAmong(rest, others[j]);
          var n :| 0 <= n < |ColumnsOf(rest)| && ColumnsOf(rest)[n] == others[j];
        }
        BothDistinct(own, others);
      }
    }
  }

  lemma BothDistinct(a: seq<string>, b: seq<string>)
    requires DistinctNames(a) && DistinctNames(b) && Apart(a, b)
    ensures DistinctNames(a + b)
  {
  }

  /** So keys with pairwise different columns never make a column come twice. */
  lemma DistinctKeysDistinctHeader(fields: seq<Field>, keys: seq<KeyColumns>, taken: seq<seq<Field>>)
    requires DistinctNames(NamesOf(fields)) && KeysTakenFrom(keys, taken, fields)
    requires DistinctNames(ColumnsOf(keys)) && forall k <- keys :: HasColumns(fields, k.columns)
    ensures DistinctNames(NamesOf(Header(fields, keys)))
  {
    HeaderDistinctWhenKnown(fields, keys, taken);
    SampledColumnsDistinct(keys);
  }

  lemma SameNamesSameDistinctness(a: seq<string>, b: seq<string>)
    requires SameNames(a, b)
    ensures DistinctNames(a) <==> DistinctNames(b)
  {
  }

  ghost predicate Apart(a: seq<string>, b: seq<string>) {
    forall i, j | 0 <= i < |a| && 0 <= j < |b| :: !SameName(a[i], b[j])
  }

  lemma DistinctConcat(a: seq<string>, b: seq<string>)
    requires DistinctNames(a) && Apart(a, b)
    ensures DistinctNames(a + b) <==> DistinctNames(b)
  {
    if DistinctNames(a + b) {
      forall i, j | 0 <= i < j < |b|
        ensures !SameName(b[i], b[j])
      {
        assert (a + b)[|a| + i] == b[i] && (a + b)[|a| + j] == b[j];
      }
    }
  }

  predicate HasCopy(f: Field, keys: seq<KeyColumns>) {
    exists k <- keys :: HasName(NamesOf(k.fields), f.columnName)
  }

  /** The only copies of a column that may not be left out are unmarked. */
  lemma MandatoryCopyUnmarked(k: KeyColumns, taken: seq<Field>, fields: seq<Field>, f: Field, i: nat)
    requires k.fields == Located(taken, k.columns) && SameColumns(taken, fields) && MarksFit(taken)
    requires FindField(fields, f.columnName) == Some(f) && !f.Skippeable()
    requires i < |k.fields| && SameName(k.fields[i].columnName, f.columnName)
    ensures !k.fields[i].skip
  {
    LocatedIsProjection(taken, k.columns);
    FoundIsMember(taken, k.columns[i]);
    SameNameFindsSame(taken, k.columns[i], f.columnName);
    FindIgnoresSkip(taken, fields, f.columnName);
    assert SameColumns([k.fields[i]], [f]);
    assert [k.fields[i]][0].(skip := false) == [f][0].(skip := false);
    assert k.fields[i].isNullable == k.fields[i].(skip := false).isNullable;
    assert k.fields[i].hasDefaultValue == k.fields[i].(skip := false).hasDefaultValue;
  }

  lemma {:induction false} SameNameFindsSame(fields: seq<Field>, a: string, b: string)
    requires SameName(a, b)
    ensures FindField(fields, a) == FindField(fields, b)
  {
    if fields != [] {
      SameNameFindsSame(fields[1..], a, b);
    }
  }

  lemma MandatoryCopySampled(fields: seq<Field>, keys: seq<KeyColumns>, taken: seq<seq<Field>>, f: Field)
    requires KeysTakenFrom(keys, taken, fields)
    requires FindField(fields, f.columnName) == Some(f) && !f.Skippeable()
    ensures HasCopy(f, ToSample(keys)) <==> HasCopy(f, keys)
  {
    if HasCopy(f, keys) {
      var k :| k in keys && HasName(NamesOf(k.fields), f.columnName);
      var n :| 0 <= n < |keys| && keys[n] == k;
      var i :| 0 <= i < |k.fields| && SameName(NamesOf(k.fields)[i], f.columnName);
      MandatoryCopyUnmarked(k, taken[n], fields, f, i);
      assert k in ToSample(keys);
    }
  }

  lemma CompleteKeyHasCopy(fields: seq<Field>, keys: seq<KeyColumns>, taken: seq<seq<Field>>, f: Field)
    requires KeysTakenFrom(keys, taken, fields) && forall k <- keys :: HasColumns(fields, k.columns)
    ensures InAnyKey(f, keys) ==> HasCopy(f, keys)
  {
    if n :| 0 <= n < |keys| && HasName(keys[n].columns, f.columnName) {
      var i :| 0 <= i < |keys[n].columns| && SameName(keys[n].columns[i], f.columnName);
      LocatedIgnoresSkip(taken[n], fields, keys[n].columns);
      CopiesAreNamed(keys[n], taken[n]);
      assert keys[n] in keys && SameName(NamesOf(keys[n].fields)[i], Copied(keys[n])[i]);
      assert HasName(NamesOf(keys[n].fields), f.columnName);
    }
  }

  /** A column the database insists on (NOT NULL, no default, not numbered by
      the database) is never filled twice. It is generated exactly if no key names it and
      sampled exactly if a key has a copy of it; so it is filled unless a key that names
      it stopped copying before, at a column the table does not have. */
  lemma MandatoryColumnFilledOnce(fields: seq<Field>, keys: seq<KeyColumns>, taken: seq<seq<Field>>, f: Field)
    requires KeysTakenFrom(keys, taken, fields) && MarksFit(fields)
    requires f in fields && FindField(fields, f.columnName) == Some(f)
    requires !f.isNullable && !f.hasDefaultValue && IsSupportedType(f.dataType)
    requires !(f.columnKey == "PRI" && f.autoIncrement)
    ensures f in ToGenerate(fields, keys) <==> !InAnyKey(f, keys)
    ensures HasCopy(f, ToSample(keys)) <==> HasCopy(f, keys)
    ensures !(f in ToGenerate(fields, keys) && HasCopy(f, ToSample(keys)))
    ensures (forall k <- keys :: HasColumns(fields, k.columns)) ==>
      (f in ToGenerate(fields, keys) <==> !HasCopy(f, ToSample(keys)))
  {
    MandatoryCopySampled(fields, keys, taken, f);
    if HasCopy(f, keys) {
      var k :| k in keys && HasName(NamesOf(k.fields), f.columnName);
      var n :| 0 <= n < |keys| && keys[n] == k;
      var i :| 0 <= i < |k.fields| && SameName(NamesOf(k.fields)[i], f.columnName);
      CopiesAreNamed(k, taken[n]);
      assert SameName(NamesOf(k.fields)[i], Copied(k)[i]) && Copied(k)[i] == k.columns[i];
      assert HasName(keys[n].columns, f.columnName);
    }
    if forall k <- keys :: HasColumns(fields, k.columns) {
      CompleteKeyHasCopy(fields, keys, taken, f);
    }
  }

  /** A whitelist marks exactly the columns outside of it that can be NULL or have
      a default; an empty one marks nothing. Mandatory columns stay unmarked. */
  lemma WhitelistMarks(fields: seq<Field>, identifiers: set<string>)
    requires MarksFit(fields)
    ensures SameColumns(Skipped(fields, identifiers), fields) && MarksFit(Skipped(fields, identifiers))
    ensures forall i | 0 <= i < |fields| ::
      var f := fields[i];
      Skipped(fields, identifiers)[i].skip <==>
        f.skip || (identifiers != {} && f.columnName !in identifiers && (f.isNullable || f.hasDefaultValue))
    ensures forall i | 0 <= i < |fields| && !fields[i].isNullable && !fields[i].hasDefaultValue ::
      !Skipped(fields, identifiers)[i].skip
  {
  }

  predicate Wanted(f: Field, identifiers: set<string>) {
    identifiers == {} || f.columnName in identifiers || !f.Skippeable()
  }

  lemma {:induction false} LocatedAfterWhitelist(loaded: seq<Field>, identifiers: set<string>, columns: seq<string>)
    requires forall i | 0 <= i < |loaded| :: !loaded[i].skip
    ensures
      var before, after := Located(loaded, columns), Located(Skipped(loaded, identifiers), columns);
      |before| == |after| && forall i | 0 <= i < |before| :: after[i].skip <==> !Wanted(before[i], identifiers)
  {
    if columns != [] {
      FindAfterWhitelist(loaded, identifiers, columns[0]);
      LocatedAfterWhitelist(loaded, identifiers, columns[1..]);
    }
  }

  lemma {:induction false} FindAfterWhitelist(loaded: seq<Field>, identifiers: set<string>, name: string)
    requires forall i | 0 <= i < |loaded| :: !loaded[i].skip
    ensures
      var before, after := FindField(loaded, name), FindField(Skipped(loaded, identifiers), name);
      (before.Some? <==> after.Some?) && (before.Some? ==> (after.value.skip <==> !Wanted(before.value, identifiers)))
  {
    if loaded != [] {
      FindAfterWhitelist(loaded[1..], identifiers, name);
      assert Skipped(loaded, identifiers)[1..] == Skipped(loaded[1..], identifiers);
    }
  }

  /** A key is sampled exactly if one of the columns it copied was wanted when it
      copied them. A key read with the table copies before the whitelist (`{}`) and is
      always sampled; a virtual key copies after it. */
  lemma KeySampledIff(keys: seq<KeyColumns>, k: KeyColumns, loaded: seq<Field>, identifiers: set<string>)
    requires k in keys && k.fields == Located(Skipped(loaded, identifiers), k.columns)
    requires forall i | 0 <= i < |loaded| :: !loaded[i].skip
    ensures
      var copied := Located(loaded, k.columns);
      k in ToSample(keys) <==> exists i | 0 <= i < |copied| :: Wanted(copied[i], identifiers)
  {
    LocatedAfterWhitelist(loaded, identifiers, k.columns);
    var copied := Located(loaded, k.columns);
    if i :| 0 <= i < |copied| && Wanted(copied[i], identifiers) {
      assert !k.fields[i].skip;
    }
    if NeedsSampling(k) {
      var i :| 0 <= i < |k.fields| && !k.fields[i].skip;
      assert Wanted(copied[i], identifiers);
    }
  }

  /** So a query that joins on a nullable column without using it otherwise loses
      the column: here `--add-fk` makes `a` the child side of a key while the whitelist
      holds only `b`, and `a` is neither sampled nor generated. */
  lemma WhitelistLosesVirtualKey()
    ensures
      var a := Field("a", true, "int", false, "", false, false);
      var b := Field("b", true, "int", false, "", false, false);
      var fields := Skipped([a, b], {"b"});
      var key := KeyColumns(["a"], Located(fields, ["a"]));
      KeysTakenFrom([key], [fields], fields) && |key.fields| == 1 && Header(fields, [key]) == [b]
  {
    var a := Field("a", true, "int", false, "", false, false);
    var b := Field("b", true, "int", false, "", false, false);
    var marked := a.(skip := true);
    assert Skipped([a, b], {"b"}) == [marked, b];
    var fields := [marked, b];
    assert LowerChar('a') == 'a' && LowerChar('b') == 'b';
    assert Lower("a")[0] == 'a' && Lower("b")[0] == 'b';
    assert Located(fields, ["a"]) == [marked];
    var key := KeyColumns(["a"], [marked]);
    assert HasName(key.columns, "a") by {
      assert SameName(key.columns[0], "a");
    }
    assert !InAnyKey(b, [key]) && IsGenerated(b, [key]);
    assert ToGenerate([b], [key]) == [b];
    assert ToGenerate(fields, [key]) == [b];
    assert ToSample([key]) == [];
  }
}
