/** The column types: which of them the program fills (db/data.go isSupportedType),
    for which it has a generator (generate/generate.go generateFieldsRow), and which it can
    read as a referenced column (generate/samples.go getterFromField). */
module ValueTypes {
  import opened Fields
  import opened Sampling

  /** The cases of the generators' switch. */
  predicate HasGenerator(dataType: string) {
    || dataType in {"bool", "boolean"}
    || dataType in {"tinyint", "bit"}
    || dataType in {"smallint", "mediumint", "int", "integer", "bigint"}
    || dataType in {"float", "decimal", "double", "numeric"}
    || dataType in {"date"}
    || dataType in {"datetime", "timestamp"}
    || dataType in {"time"}
    || dataType in {"uuid"}
    || dataType in {"char", "varchar", "tinyblob", "tinytext", "blob", "text", "mediumtext", "mediumblob", "longblob",
                    "longtext"}
    || dataType in {"year"}
    || dataType in {"enum", "set"}
    || dataType in {"binary", "varbinary"}
  }

  /** The cases of the switch of the samplers. */
  predicate CanBeRead(dataType: string) {
    || dataType in {"tinyint", "smallint", "mediumint", "int", "integer", "bigint", "year"}
    || dataType in {"char", "varchar", "blob", "text", "mediumtext", "mediumblob", "longblob", "longtext"}
    || dataType in {"binary", "varbinary"}
    || dataType in {"float", "decimal", "double"}
    || dataType in {"date", "time", "datetime", "timestamp"}
  }

  /** The types the program fills are those it has a generator for, but for two. */
  lemma FilledIffGenerated(t: string)
    ensures IsSupportedType(t) <==> HasGenerator(t) && t != "bit" && t != "numeric"
  {
  }

  /** So no column that is chosen for generation is left without a value. */
  lemma ChosenHaveGenerators(fields: seq<Field>, keys: seq<KeyColumns>)
    ensures forall f <- ToGenerate(fields, keys) :: HasGenerator(f.dataType)
  {
    forall f | f in ToGenerate(fields, keys)
      ensures HasGenerator(f.dataType)
    {
      FilledIffGenerated(f.dataType);
    }
  }

  /** Values of seven types are generated but cannot be read back. */
  lemma ReadIffFilled(t: string)
    ensures CanBeRead(t) <==>
      IsSupportedType(t) && t !in {"bool", "boolean", "tinyblob", "tinytext", "uuid", "enum", "set"}
  {
  }

  /** A row is read column by column: one column without a place to read it into fails the row. */
  ghost predicate ReadInto(fields: seq<Field>, answers: nat -> Answer) {
    forall k | answers(k).Rows? && answers(k).rows != [] :: forall f <- fields :: CanBeRead(f.dataType)
  }

  /** So a key that references such a column is never sampled, whatever the database holds. */
  lemma UnreadableNeverSampled(fields: seq<Field>, f: Field, answers: nat -> Answer, n: nat)
    requires ReadInto(fields, answers) && f in fields && n > 0
    requires f.dataType in {"bool", "boolean", "tinyblob", "tinytext", "uuid", "enum", "set"}
    ensures GivesUp(answers, 0, 1, n) && forall m: nat :: !Suffices(answers, 0, m, n)
  {
    ReadIffFilled(f.dataType);
    forall m: nat
      ensures Concat(answers, 0, m) == [] && !Suffices(answers, 0, m, n)
    {
      NothingRead(answers, 0, m);
    }
  }

  lemma {:induction false} NothingRead(answers: nat -> Answer, first: nat, m: nat)
    requires forall k | answers(k).Rows? :: answers(k).rows == []
    ensures Concat(answers, first, m) == []
    decreases m
  {
    if m > 0 {
      NothingRead(answers, first + 1, m - 1);
    }
  }
}
