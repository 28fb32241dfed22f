/** The insert statement as a matrix of cells (generate/generate.go genQuery and
    sampleConstraints, generate/getters.go): which goroutine writes which columns. */
module RowLayout {
  import opened Text
  import opened Fields
  import opened Schema
  import opened Loader
  import opened Sampling

  // Child and parent side of a key have equally many fields.

  predicate Aligned(c: Constraint)
    reads c
  {
    |c.fields| == |c.referencedFields|
  }

  /** The child side is never the longer one, and loading keeps the two sides
      equally long exactly when the table has all the columns the key names. */
  lemma AlignedIffColumnsKnown(c: Constraint, k: ForeignKey, childFields: seq<Field>, cache: Cache, catalog: Catalog)
    requires Linked(c, k, childFields, cache, catalog) && |k.columns| == |k.parentColumns|
    ensures |c.fields| <= |c.referencedFields|
    ensures Aligned(c) <==> HasColumns(childFields, k.columns)
  {
    LocatedIsProjection(childFields, k.columns);
    LocatedIsProjection(catalog[k.parent].fields, k.parentColumns);
  }

  /** How many columns each key takes. */
  function Widths(cs: seq<Constraint>): (widths: seq<nat>)
    reads cs
    ensures |widths| == |cs| && forall n | 0 <= n < |cs| :: widths[n] == |cs[n].referencedFields|
  {
    if cs == [] then [] else [|cs[0].referencedFields|] + Widths(cs[1..])
  }

  /** Where the columns of the `n`-th key begin, counted from the first sampled one. */
  function Offset(widths: seq<nat>, n: nat): nat
    requires n <= |widths|
  {
    if n == 0 then 0 else Offset(widths, n - 1) + widths[n - 1]
  }

  lemma {:induction false} OffsetsGrow(widths: seq<nat>, a: nat, b: nat)
    requires a <= b <= |widths|
    ensures Offset(widths, a) <= Offset(widths, b)
    ensures a < b ==> Offset(widths, a) + widths[a] <= Offset(widths, b)
    decreases b
  {
    if a < b {
      OffsetsGrow(widths, a, b - 1);
    }
  }

  // The three bands.

  method FillDefaults(matrix: array2<Cell>, width: nat)
    requires width <= matrix.Length1
    modifies matrix
    ensures forall r, k | 0 <= r < matrix.Length0 && 0 <= k < matrix.Length1 ::
      matrix[r, k] == if k < width then Default else old(matrix[r, k])
  {
    for i := 0 to matrix.Length0
      invariant forall r, k | 0 <= r < matrix.Length0 && 0 <= k < matrix.Length1 ::
        matrix[r, k] == if r < i && k < width then Default else old(matrix[r, k])
    {
      for col := 0 to width
        invariant forall r, k | 0 <= r < matrix.Length0 && 0 <= k < matrix.Length1 ::
          matrix[r, k] == if (r < i && k < width) || (r == i && k < col) then Default else old(matrix[r, k])
      {
        matrix[i, col] := Default;
      }
    }
  }

  method FillGenerated(matrix: array2<Cell>, from: nat, fields: seq<Field>, draw: (nat, nat) -> string)
    requires from + |fields| <= matrix.Length1
    modifies matrix
    ensures forall r, k | 0 <= r < matrix.Length0 && 0 <= k < matrix.Length1 ::
      matrix[r, k] ==
        if from <= k < from + |fields| then Generated(fields[k - from].columnName, draw(r, k - from))
        else old(matrix[r, k])
  {
    for i := 0 to matrix.Length0
      invariant forall r, k | 0 <= r < matrix.Length0 && 0 <= k < matrix.Length1 ::
        matrix[r, k] == if r < i && from <= k < from + |fields|
                        then Generated(fields[k - from].columnName, draw(r, k - from)) else old(matrix[r, k])
    {
      for colIndex := 0 to |fields|
        invariant forall r, k | 0 <= r < matrix.Length0 && 0 <= k < matrix.Length1 ::
          matrix[r, k] == if (r < i && from <= k < from + |fields|) || (r == i && from <= k < from + colIndex)
                          then Generated(fields[k - from].columnName, draw(r, k - from)) else old(matrix[r, k])
      {
        matrix[i, from + colIndex] := Generated(fields[colIndex].columnName, draw(i, colIndex));
      }
    }
  }

  /** What the database answers to the samplers: per key, call by call. */
  type Answers = Constraint -> (nat -> Answer)

  ghost predicate AllWide(cs: seq<Constraint>, widths: seq<nat>, answers: Answers) {
    |cs| == |widths| && forall n | 0 <= n < |cs| :: Wide(answers(cs[n]), widths[n])
  }

  /** Column `k` of the matrix belongs to the `n`-th key. */
  predicate InBand(from: nat, widths: seq<nat>, n: nat, k: nat)
    requires n < |widths|
  {
    from + Offset(widths, n) <= k < from + Offset(widths, n) + widths[n]
  }

  /** The columns of the `n`-th key hold, in order, the first `got` of these rows. */
  ghost predicate KeyHolds(matrix: array2<Cell>, from: nat, widths: seq<nat>, n: nat, rows: seq<Row>, got: nat)
    reads matrix
  {
    && n < |widths| && from + Offset(widths, n) + widths[n] <= matrix.Length1
    && got <= |rows| && got <= matrix.Length0
    && forall i, f | 0 <= i < got && 0 <= f < widths[n] && f < |rows[i]| ::
         matrix[i, from + Offset(widths, n) + f] == Sampled(rows[i][f])
  }

  /** One key: its columns of every row, and nothing else. */
  method SampleKey(matrix: array2<Cell>, from: nat, widths: seq<nat>, n: nat, answers: nat -> Answer)
    returns (ok: bool, ghost m: nat, ghost got: nat)
    requires n < |widths| && from + Offset(widths, n) + widths[n] <= matrix.Length1 && matrix.Length0 > 0
    requires Wide(answers, widths[n])
    modifies matrix
    ensures if ok then Suffices(answers, 0, m, matrix.Length0) && got == matrix.Length0
            else GivesUp(answers, 0, m, matrix.Length0)
    ensures KeyHolds(matrix, from, widths, n, Concat(answers, 0, m), got)
    ensures forall r, k |
      0 <= r < matrix.Length0 && 0 <= k < matrix.Length1 && !(r < got && InBand(from, widths, n, k)) ::
      matrix[r, k] == old(matrix[r, k])
  {
    var slots := Slots(matrix, from + Offset(widths, n), widths[n]);
    ghost var writes;
    ok, m, got, writes := Query(slots, 0, matrix.Length0, answers, 0);
    ConcatWide(answers, 0, m, slots.width);
    ghost var rows := Concat(answers, 0, m);
    forall i, f | 0 <= i < got && 0 <= f < slots.width
      ensures matrix[i, from + Offset(widths, n) + f] == Sampled(rows[i][f])
    {
      assert slots.matrix[0 + i, slots.from + f] == Sampled(rows[..got][i][f]);
    }
  }

  /** Each of the first keys holds the rows found for it. */
  ghost predicate KeysHold(matrix: array2<Cell>, from: nat, widths: seq<nat>, found: seq<seq<Row>>)
    reads matrix
  {
    forall n | 0 <= n < |found| :: KeyHolds(matrix, from, widths, n, found[n], matrix.Length0)
  }

  /** All the rows of as many answers as it takes to have enough. */
  ghost predicate FoundFor(answers: nat -> Answer, found: seq<Row>, rows: nat) {
    exists m: nat :: Suffices(answers, 0, m, rows) && found == Concat(answers, 0, m)
  }

  ghost predicate FailsFor(answers: nat -> Answer, rows: nat) {
    exists m: nat :: GivesUp(answers, 0, m, rows)
  }

  /** The next key leaves the ones before it alone. */
  method SampleNextKey(matrix: array2<Cell>, from: nat, widths: seq<nat>, answers: nat -> Answer, n: nat,
                       ghost found: seq<seq<Row>>)
    returns (ok: bool, ghost rows: seq<Row>, ghost got: nat)
    requires n == |found| < |widths| && from + Offset(widths, n) + widths[n] <= matrix.Length1 && matrix.Length0 > 0
    requires Wide(answers, widths[n]) && KeysHold(matrix, from, widths, found)
    modifies matrix
    ensures if ok then FoundFor(answers, rows, matrix.Length0) else FailsFor(answers, matrix.Length0)
    ensures KeysHold(matrix, from, widths, found)
    ensures ok ==> KeyHolds(matrix, from, widths, n, rows, matrix.Length0)
    ensures forall r, k |
      0 <= r < matrix.Length0 && 0 <= k < matrix.Length1 && !(r < got && InBand(from, widths, n, k)) ::
      matrix[r, k] == old(matrix[r, k])
  {
    ghost var m;
    ok, m, got := SampleKey(matrix, from, widths, n, answers);
    rows := Concat(answers, 0, m);
    forall p | 0 <= p < |found|
      ensures KeyHolds(matrix, from, widths, p, found[p], matrix.Length0)
    {
      OffsetsGrow(widths, p, |found|);
      assert old(KeyHolds(matrix, from, widths, p, found[p], matrix.Length0));
    }
  }

  lemma HoldsOneMore(matrix: array2<Cell>, from: nat, widths: seq<nat>, found: seq<seq<Row>>, rows: seq<Row>)
    requires KeysHold(matrix, from, widths, found) && KeyHolds(matrix, from, widths, |found|, rows, matrix.Length0)
    ensures KeysHold(matrix, from, widths, found + [rows])
  {
  }

  ghost predicate AllFound(cs: seq<Constraint>, answers: Answers, found: seq<seq<Row>>, rows: nat) {
    |found| <= |cs| && forall n | 0 <= n < |found| :: FoundFor(answers(cs[n]), found[n], rows)
  }

  lemma FoundOneMore(cs: seq<Constraint>, answers: Answers, found: seq<seq<Row>>, more: seq<Row>, rows: nat)
    requires AllFound(cs, answers, found, rows) && |found| < |cs| && FoundFor(answers(cs[|found|]), more, rows)
    ensures AllFound(cs, answers, found + [more], rows)
  {
  }

  /** The cells from column `from` on that sampling has left alone, when it
      stopped at the key after `done` with `got` rows. */
  predicate Untouched(from: nat, widths: seq<nat>, done: nat, got: nat, r: nat, k: nat)
    requires done <= |widths|
  {
    k < from || (from + Offset(widths, done) <= k && !(done < |widths| && r < got && InBand(from, widths, done, k)))
  }

  /** How sampling ends: with all keys, at a key it cannot sample, or at a key
      whose columns run past the end of the row - the program cuts them out of the row
      first, and is ended by Go. */
  datatype SampleOutcome = AllSampled | KeyFailed | OutOfRange

  /** The first keys are sampled, and what became of the next one. */
  ghost predicate SampledUpTo(outcome: SampleOutcome, cs: seq<Constraint>, widths: seq<nat>, room: int,
                              answers: Answers, found: seq<seq<Row>>, rows: nat)
    requires |cs| == |widths|
  {
    && AllFound(cs, answers, found, rows) && Offset(widths, |found|) <= room
    && match outcome
       case AllSampled => |found| == |cs|
       case KeyFailed => |found| < |cs| && Offset(widths, |found| + 1) <= room && FailsFor(answers(cs[|found|]), rows)
       case OutOfRange => |found| < |cs| && Offset(widths, |found| + 1) > room
  }

  lemma NextKeyFound(cs: seq<Constraint>, widths: seq<nat>, room: int, answers: Answers, found: seq<seq<Row>>,
                     more: seq<Row>, rows: nat)
    requires |cs| == |widths| && |found| < |cs| && Offset(widths, |found| + 1) <= room
    requires AllFound(cs, answers, found, rows) && FoundFor(answers(cs[|found|]), more, rows)
    ensures AllFound(cs, answers, found + [more], rows) && Offset(widths, |found + [more]|) <= room
  {
    FoundOneMore(cs, answers, found, more, rows);
  }

  /** All keys in turn, up to the first whose sampling fails or whose columns do
      not fit into the row. */
  method SampleConstraints(matrix: array2<Cell>, from: nat, cs: seq<Constraint>, widths: seq<nat>, answers: Answers)
    returns (outcome: SampleOutcome, ghost found: seq<seq<Row>>, ghost got: nat)
    requires AllWide(cs, widths, answers) && from <= matrix.Length1 && matrix.Length0 > 0
    modifies matrix
    ensures SampledUpTo(outcome, cs, widths, matrix.Length1 - from, answers, found, matrix.Length0)
    ensures KeysHold(matrix, from, widths, found)
    ensures forall r, k |
      0 <= r < matrix.Length0 && 0 <= k < matrix.Length1 && Untouched(from, widths, |found|, got, r, k) ::
      matrix[r, k] == old(matrix[r, k])
  {
    found, got := [], 0;
    for n := 0 to |cs|
      invariant |found| == n && KeysHold(matrix, from, widths, found) && AllFound(cs, answers, found, matrix.Length0)
      invariant Offset(widths, n) <= matrix.Length1 - from
      invariant forall r, k |
        0 <= r < matrix.Length0 && 0 <= k < matrix.Length1 && (k < from || from + Offset(widths, n) <= k) ::
        matrix[r, k] == old(matrix[r, k])
    {
      if from + Offset(widths, n) + widths[n] > matrix.Length1 {
        got := 0;
        return OutOfRange, found, got;
      }
      ghost var rows;
      var ok;
      ok, rows, got := SampleNextKey(matrix, from, widths, answers(cs[n]), n, found);
      if !ok {
        return KeyFailed, found, got;
      }
      HoldsOneMore(matrix, from, widths, found, rows);
      NextKeyFound(cs, widths, matrix.Length1 - from, answers, found, rows, matrix.Length0);
      found := found + [rows];
    }
    outcome := AllSampled;
  }

  // The statement.

  /** No key has more columns on the child side. */
  ghost predicate NoneWider(cs: seq<Constraint>)
    reads cs
  {
    forall c <- cs :: |c.fields| <= |c.referencedFields|
  }

  ghost predicate AllAligned(cs: seq<Constraint>)
    reads cs
  {
    forall c <- cs :: Aligned(c)
  }

  predicate FitWidths(views: seq<KeyColumns>, widths: seq<nat>) {
    |views| == |widths| && forall n | 0 <= n < |views| :: |views[n].fields| <= widths[n]
  }

  predicate Exactly(views: seq<KeyColumns>, widths: seq<nat>) {
    |views| == |widths| && forall n | 0 <= n < |views| :: |views[n].fields| == widths[n]
  }

  lemma ExactlyCons(views: seq<KeyColumns>, widths: seq<nat>)
    requires FitWidths(views, widths) && views != []
    ensures FitWidths(views[1..], widths[1..])
    ensures Exactly(views, widths) <==> |views[0].fields| == widths[0] && Exactly(views[1..], widths[1..])
  {
    assert forall n | 0 < n < |views| :: views[n] == views[1..][n - 1] && widths[n] == widths[1..][n - 1];
  }

  lemma {:induction false} FieldsWithin(views: seq<KeyColumns>, widths: seq<nat>)
    requires FitWidths(views, widths)
    ensures |FieldsOf(views)| <= Offset(widths, |widths|)
    ensures |FieldsOf(views)| == Offset(widths, |widths|) <==> Exactly(views, widths)
  {
    if views != [] {
      ExactlyCons(views, widths);
      FieldsWithin(views[1..], widths[1..]);
      OffsetCons(widths[0], widths[1..], |widths| - 1);
      assert [widths[0]] + widths[1..] == widths;
    }
  }

  /** The keys' columns run past the row exactly if one of them names a column
      that the table does not have. */
  lemma FieldsOfWidth(cs: seq<Constraint>)
    requires NoneWider(cs)
    ensures |FieldsOf(KeyViews(cs))| <= Offset(Widths(cs), |cs|)
    ensures |FieldsOf(KeyViews(cs))| == Offset(Widths(cs), |cs|) <==> AllAligned(cs)
  {
    var views, widths := KeyViews(cs), Widths(cs);
    forall n | 0 <= n < |cs|
      ensures |views[n].fields| <= widths[n] && (Aligned(cs[n]) <==> |views[n].fields| == widths[n])
    {
      assert cs[n] in cs;
    }
    FieldsWithin(views, widths);
  }

  lemma {:induction false} OffsetCons(w: nat, widths: seq<nat>, n: nat)
    requires n <= |widths|
    ensures Offset([w] + widths, n + 1) == w + Offset(widths, n)
  {
    if n > 0 {
      OffsetCons(w, widths, n - 1);
    }
  }

  lemma OneKeyLess(views: seq<KeyColumns>, i: nat, fields: seq<Field>)
    requires i < |views|
    ensures fields + FieldsOf(views[i..]) == (fields + views[i].fields) + FieldsOf(views[i + 1..])
  {
    assert views[i..][0] == views[i] && views[i..][1..] == views[i + 1..];
  }

  lemma NoKeyLeft(views: seq<KeyColumns>, fields: seq<Field>)
    ensures fields + FieldsOf(views[|views|..]) == fields
    ensures views[0..] == views && [] + FieldsOf(views) == FieldsOf(views)
  {
  }

  /** The fields of all these keys, key by key. */
  method ConstraintFields(cs: seq<Constraint>) returns (fields: seq<Field>)
    ensures fields == FieldsOf(KeyViews(cs))
  {
    ghost var views := KeyViews(cs);
    fields := [];
    NoKeyLeft(views, []);
    for i := 0 to |cs|
      invariant fields + FieldsOf(views[i..]) == FieldsOf(views)
    {
      OneKeyLess(views, i, fields);
      fields := fields + cs[i].fields;
    }
    NoKeyLeft(views, fields);
  }

  /** The cells of the first two bands are of the kind, and for the column, that
      the header says. */
  ghost predicate BandsFilled(header: seq<Field>, defaults: nat, generated: nat, matrix: array2<Cell>,
                              draw: (nat, nat) -> string)
    reads matrix
  {
    && defaults + generated <= |header| == matrix.Length1
    && forall r, k | 0 <= r < matrix.Length0 && 0 <= k < defaults + generated ::
         matrix[r, k] == if k < defaults then Default else Generated(header[k].columnName, draw(r, k - defaults))
  }

  ghost predicate LeftNil(matrix: array2<Cell>, from: nat, widths: seq<nat>, done: nat, got: nat)
    requires done <= |widths|
    reads matrix
  {
    forall r, k | 0 <= r < matrix.Length0 && from <= k < matrix.Length1 && Untouched(from, widths, done, got, r, k) ::
      matrix[r, k] == Nil
  }

  datatype Columns = Columns(
    asDefault: seq<Field>,
    toGen: seq<Field>,
    keys: seq<Constraint>,
    toSample: seq<Field>,
    widths: seq<nat>)
  {
    function Header(): seq<Field> {
      asDefault + toGen + toSample
    }
  }

  ghost predicate AnswersFit(cs: seq<Constraint>, answers: Answers)
    reads cs
  {
    forall c <- cs :: Wide(answers(c), |c.referencedFields|)
  }

  /** The columns the selectors choose from these fields and keys. */
  ghost predicate Chosen(columns: Columns, fields: seq<Field>, keys: seq<KeyColumns>) {
    && columns.asDefault == ToDefault(fields, keys) && columns.toGen == ToGenerate(fields, keys)
    && columns.toSample == FieldsOf(ToSample(keys))
  }

  ghost predicate ChosenFrom(columns: Columns, fields: seq<Field>, keys: seq<KeyColumns>)
    reads columns.keys
  {
    Chosen(columns, fields, keys) && KeyViews(columns.keys) == ToSample(keys) && columns.widths == Widths(columns.keys)
  }

  lemma KeysFit(all: seq<Constraint>, cs: seq<Constraint>, answers: Answers)
    requires AnswersFit(all, answers) && forall c <- cs :: c in all
    ensures AllWide(cs, Widths(cs), answers)
  {
    forall n | 0 <= n < |cs|
      ensures Wide(answers(cs[n]), Widths(cs)[n])
    {
      assert cs[n] in all;
    }
  }

  method ChooseBands(table: Table) returns (asDefault: seq<Field>, toGen: seq<Field>)
    ensures asDefault == ToDefault(table.fields, KeyViews(table.constraints))
    ensures toGen == ToGenerate(table.fields, KeyViews(table.constraints))
  {
    ghost var keys := KeyViews(table.constraints);
    asDefault := table.FieldsToInsertAsDefault();
    assert KeyViews(table.constraints) == keys;
    toGen := table.FieldsToGenerate();
    assert KeyViews(table.constraints) == keys;
  }

  method ChooseColumns(table: Table, ghost answers: Answers) returns (columns: Columns)
    requires AnswersFit(table.constraints, answers)
    ensures ChosenFrom(columns, table.fields, KeyViews(table.constraints))
    ensures AllWide(columns.keys, columns.widths, answers)
  {
    ghost var keys := KeyViews(table.constraints);
    var fieldsAsDefault, fieldsToGen := ChooseBands(table);
    assert KeyViews(table.constraints) == keys;
    var constraintsToSample := table.ConstraintsToSample();
    assert KeyViews(table.constraints) == keys;
    var fieldsToSample := ConstraintFields(constraintsToSample);
    KeysFit(table.constraints, constraintsToSample, answers);
    columns := Columns(fieldsAsDefault, fieldsToGen, constraintsToSample, fieldsToSample, Widths(constraintsToSample));
  }

  datatype Statement = Statement(columns: Columns, matrix: array2<Cell>, outcome: SampleOutcome)

  /** What the statement's cells are: bands as the header says; per sampled key
      the rows found for it; and nil where sampling did not get. */
  ghost predicate WellBuilt(s: Statement, count: nat, draw: (nat, nat) -> string, answers: Answers,
                            found: seq<seq<Row>>, got: nat)
    reads s.matrix
  {
    var from, widths := |s.columns.asDefault| + |s.columns.toGen|, s.columns.widths;
    && s.matrix.Length0 == count && |widths| == |s.columns.keys|
    && BandsFilled(s.columns.Header(), |s.columns.asDefault|, |s.columns.toGen|, s.matrix, draw)
    && SampledUpTo(s.outcome, s.columns.keys, widths, |s.columns.toSample|, answers, found, count)
    && KeysHold(s.matrix, from, widths, found) && LeftNil(s.matrix, from, widths, |found|, got)
  }

  /** The first two bands; what is right of them stays nil. */
  method FillFirstBands(count: nat, columns: Columns, draw: (nat, nat) -> string) returns (matrix: array2<Cell>)
    ensures fresh(matrix) && matrix.Length0 == count
    ensures BandsFilled(columns.Header(), |columns.asDefault|, |columns.toGen|, matrix, draw)
    ensures forall r, k | 0 <= r < matrix.Length0 && |columns.asDefault| + |columns.toGen| <= k < matrix.Length1 ::
      matrix[r, k] == Nil
  {
    matrix := new Cell[count, |columns.Header()|]((r, k) => Nil);
    FillDefaults(matrix, |columns.asDefault|);
    FillGenerated(matrix, |columns.asDefault|, columns.toGen, draw);
  }

  /** The third band; the first two keep their cells. */
  method FillThirdBand(matrix: array2<Cell>, columns: Columns, ghost draw: (nat, nat) -> string, answers: Answers)
    returns (outcome: SampleOutcome, ghost found: seq<seq<Row>>, ghost got: nat)
    requires matrix.Length0 > 0 && AllWide(columns.keys, columns.widths, answers)
    requires BandsFilled(columns.Header(), |columns.asDefault|, |columns.toGen|, matrix, draw)
    requires forall r, k | 0 <= r < matrix.Length0 && |columns.asDefault| + |columns.toGen| <= k < matrix.Length1 ::
      matrix[r, k] == Nil
    modifies matrix
    ensures BandsFilled(columns.Header(), |columns.asDefault|, |columns.toGen|, matrix, draw)
    ensures SampledUpTo(outcome, columns.keys, columns.widths, |columns.toSample|, answers, found, matrix.Length0)
    ensures KeysHold(matrix, |columns.asDefault| + |columns.toGen|, columns.widths, found)
    ensures LeftNil(matrix, |columns.asDefault| + |columns.toGen|, columns.widths, |found|, got)
  {
    outcome, found, got :=
      SampleConstraints(matrix, |columns.asDefault| + |columns.toGen|, columns.keys, columns.widths, answers);
  }

  /** If every key has found all its columns, sampling never runs out of range;
      otherwise it never completes. */
  ghost predicate RoomIfAligned(outcome: SampleOutcome, cs: seq<Constraint>)
    reads cs
  {
    if AllAligned(cs) then outcome != OutOfRange else outcome != AllSampled
  }

  lemma RoomDecides(outcome: SampleOutcome, cs: seq<Constraint>, widths: seq<nat>, room: int, answers: Answers,
                    found: seq<seq<Row>>, rows: nat)
    requires |cs| == |widths| && SampledUpTo(outcome, cs, widths, room, answers, found, rows)
    ensures outcome == OutOfRange ==> Offset(widths, |widths|) > room
    ensures outcome == AllSampled ==> Offset(widths, |widths|) <= room
  {
    if |found| < |cs| {
      OffsetsGrow(widths, |found| + 1, |cs|);
    }
  }

  /** A key's columns run past the row only if the two sides of some key differ in length. */
  lemma OutOfRangeOnlyIfMisaligned(s: Statement, count: nat, draw: (nat, nat) -> string, answers: Answers,
                                   found: seq<seq<Row>>, got: nat, fields: seq<Field>, keys: seq<KeyColumns>)
    requires WellBuilt(s, count, draw, answers, found, got) && ChosenFrom(s.columns, fields, keys)
    ensures NoneWider(s.columns.keys) ==> RoomIfAligned(s.outcome, s.columns.keys)
  {
    RoomDecides(s.outcome, s.columns.keys, s.columns.widths, |s.columns.toSample|, answers, found, count);
    if NoneWider(s.columns.keys) {
      FieldsOfWidth(s.columns.keys);
    }
  }

  lemma BandsMakeStatement(s: Statement, draw: (nat, nat) -> string, answers: Answers, found: seq<seq<Row>>, got: nat)
    requires |s.columns.widths| == |s.columns.keys|
    requires BandsFilled(s.columns.Header(), |s.columns.asDefault|, |s.columns.toGen|, s.matrix, draw)
    requires
      SampledUpTo(s.outcome, s.columns.keys, s.columns.widths, |s.columns.toSample|, answers, found, s.matrix.Length0)
    requires KeysHold(s.matrix, |s.columns.asDefault| + |s.columns.toGen|, s.columns.widths, found)
    requires LeftNil(s.matrix, |s.columns.asDefault| + |s.columns.toGen|, s.columns.widths, |found|, got)
    ensures WellBuilt(s, s.matrix.Length0, draw, answers, found, got)
  {
  }

  /** The matrix, band by band. Each of the three steps writes only cells of its
      own columns, so it does not matter that the program runs them side by side. */
  method FillMatrix(count: nat, columns: Columns, draw: (nat, nat) -> string, answers: Answers)
    returns (s: Statement, ghost found: seq<seq<Row>>, ghost got: nat)
    requires count > 0 && AllWide(columns.keys, columns.widths, answers)
    ensures s.columns == columns && fresh(s.matrix) && WellBuilt(s, count, draw, answers, found, got)
  {
    var matrix := FillFirstBands(count, columns, draw);
    var outcome;
    outcome, found, got := FillThirdBand(matrix, columns, draw, answers);
    s := Statement(columns, matrix, outcome);
    BandsMakeStatement(s, draw, answers, found, got);
  }

  /** The statement for `count` rows, and the keys it samples. If sampling ran out
      of range the program ends before it is written out. */
  method GenQuery(table: Table, count: nat, draw: (nat, nat) -> string, answers: Answers)
    returns (statement: Option<Statement>, ghost found: seq<seq<Row>>, ghost got: nat)
    requires AnswersFit(table.constraints, answers)
    ensures statement.None? <==> count == 0
    ensures statement.Some? ==>
      && ChosenFrom(statement.value.columns, table.fields, KeyViews(table.constraints))
      && WellBuilt(statement.value, count, draw, answers, found, got)
      && (NoneWider(statement.value.columns.keys) ==>
            RoomIfAligned(statement.value.outcome, statement.value.columns.keys))
  {
    statement, found, got := None, [], 0;
    if count < 1 {
      return;
    }
    ghost var fields, keys := table.fields, KeyViews(table.constraints);
    var columns := ChooseColumns(table, answers);
    assert KeyViews(table.constraints) == keys;
    var s;
    s, found, got := FillMatrix(count, columns, draw, answers);
    assert KeyViews(table.constraints) == keys && ChosenFrom(s.columns, fields, keys);
    OutOfRangeOnlyIfMisaligned(s, count, draw, answers, found, got, fields, keys);
    statement := Some(s);
  }

  /** The column list of the statement is the one the selectors promise. */
  lemma ChosenHeader(columns: Columns, fields: seq<Field>, keys: seq<KeyColumns>)
    requires Chosen(columns, fields, keys)
    ensures columns.Header() == Header(fields, keys)
  {
  }

  /** The header names, at the columns of the `n`-th key, the fields of that key in order. */
  lemma {:induction false} HeaderNamesKeys(cs: seq<Constraint>, n: nat, f: nat)
    requires AllAligned(cs) && n < |cs| && f < |cs[n].fields|
    ensures Offset(Widths(cs), n) + f < |FieldsOf(KeyViews(cs))|
    ensures FieldsOf(KeyViews(cs))[Offset(Widths(cs), n) + f] == cs[n].fields[f]
  {
    FirstKeyFirst(cs);
    if n == 0 {
      assert Offset(Widths(cs), 0) == 0;
    } else {
      var rest, at := FieldsOf(KeyViews(cs[1..])), Offset(Widths(cs[1..]), n - 1) + f;
      assert cs[1..][n - 1] == cs[n];
      HeaderNamesKeys(cs[1..], n - 1, f);
      OffsetCons(|cs[0].fields|, Widths(cs[1..]), n - 1);
      assert (cs[0].fields + rest)[|cs[0].fields| + at] == rest[at];
    }
  }

  lemma FirstKeyFirst(cs: seq<Constraint>)
    requires cs != [] && AllAligned(cs)
    ensures FieldsOf(KeyViews(cs)) == cs[0].fields + FieldsOf(KeyViews(cs[1..]))
    ensures Widths(cs) == [|cs[0].fields|] + Widths(cs[1..]) && AllAligned(cs[1..])
  {
    assert KeyViews(cs)[1..] == KeyViews(cs[1..]);
    assert cs[0] in cs;
  }

  ghost predicate FromParent(answers: nat -> Answer, parent: set<Row>) {
    forall k | answers(k).Rows? :: forall i | 0 <= i < |answers(k).rows| :: answers(k).rows[i] in parent
  }

  lemma {:induction false} ConcatFromParent(answers: nat -> Answer, first: nat, m: nat, parent: set<Row>)
    requires FromParent(answers, parent)
    ensures forall i | 0 <= i < |Concat(answers, first, m)| :: Concat(answers, first, m)[i] in parent
    decreases m
  {
    if m > 0 {
      ConcatFromParent(answers, first + 1, m - 1, parent);
    }
  }

  /** Referential integrity: whatever the database answered, as long as it
      answered with rows of the parent, the cells of a sampled key are in every row of
      the statement the cells of one such row, in order. */
  lemma KeyCellsAreOneParentRow(s: Statement, count: nat, draw: (nat, nat) -> string, answers: Answers,
                                found: seq<seq<Row>>, got: nat, n: nat, i: nat, parent: set<Row>)
    returns (p: Row)
    requires WellBuilt(s, count, draw, answers, found, got) && n < |found| && i < count
    requires n < |s.columns.widths| && Wide(answers(s.columns.keys[n]), s.columns.widths[n])
    requires FromParent(answers(s.columns.keys[n]), parent)
    ensures p in parent && |p| == s.columns.widths[n]
    ensures
      var from := |s.columns.asDefault| + |s.columns.toGen| + Offset(s.columns.widths, n);
      from + |p| <= s.matrix.Length1 && forall f | 0 <= f < |p| :: s.matrix[i, from + f] == Sampled(p[f])
  {
    var a := answers(s.columns.keys[n]);
    assert FoundFor(a, found[n], count);
    var m: nat :| Suffices(a, 0, m, count) && found[n] == Concat(a, 0, m);
    ConcatFromParent(a, 0, m, parent);
    ConcatWide(a, 0, m, s.columns.widths[n]);
    var from := |s.columns.asDefault| + |s.columns.toGen|;
    assert KeyHolds(s.matrix, from, s.columns.widths, n, found[n], s.matrix.Length0);
    p := found[n][i];
  }

  // Writing the statement out.

  predicate HasNil(matrix: array2<Cell>)
    reads matrix
  {
    exists r, k | 0 <= r < matrix.Length0 && 0 <= k < matrix.Length1 :: matrix[r, k] == Nil
  }

  lemma {:induction false} BandOf(widths: seq<nat>, k: nat) returns (n: nat)
    requires k < Offset(widths, |widths|)
    ensures n < |widths| && InBand(0, widths, n, k)
    decreases |widths|
  {
    var last := |widths| - 1;
    OffsetPrefix(widths, last, last);
    if k >= Offset(widths, last) {
      n := last;
    } else {
      n := BandOf(widths[..last], k);
      OffsetPrefix(widths, last, n);
    }
  }

  lemma {:induction false} OffsetPrefix(widths: seq<nat>, a: nat, n: nat)
    requires n <= a <= |widths|
    ensures Offset(widths[..a], n) == Offset(widths, n)
  {
    if n > 0 {
      OffsetPrefix(widths, a, n - 1);
    }
  }

  ghost predicate RowsWide(rows: seq<Row>, width: nat) {
    forall i | 0 <= i < |rows| :: |rows[i]| == width
  }

  ghost predicate AllRowsWide(found: seq<seq<Row>>, widths: seq<nat>) {
    |found| <= |widths| && forall n {:trigger RowsWide(found[n], widths[n])} | 0 <= n < |found| ::
      RowsWide(found[n], widths[n])
  }

  lemma FoundIsWide(cs: seq<Constraint>, widths: seq<nat>, answers: Answers, found: seq<seq<Row>>, count: nat)
    requires AllWide(cs, widths, answers) && AllFound(cs, answers, found, count)
    ensures AllRowsWide(found, widths)
  {
    forall n | 0 <= n < |found|
      ensures RowsWide(found[n], widths[n])
    {
      assert FoundFor(answers(cs[n]), found[n], count);
      var m: nat :| Suffices(answers(cs[n]), 0, m, count) && found[n] == Concat(answers(cs[n]), 0, m);
      ConcatWide(answers(cs[n]), 0, m, widths[n]);
    }
  }

  lemma KeyCellWritten(matrix: array2<Cell>, from: nat, widths: seq<nat>, n: nat, rows: seq<Row>, r: nat, k: nat)
    requires KeyHolds(matrix, from, widths, n, rows, matrix.Length0) && r < matrix.Length0
    requires from <= k < matrix.Length1 && InBand(0, widths, n, k - from)
    requires RowsWide(rows, widths[n])
    ensures matrix[r, k] != Nil
  {
    var f := k - from - Offset(widths, n);
    assert matrix[r, from + Offset(widths, n) + f] == Sampled(rows[r][f]);
  }

  lemma FirstBandsNotNil(header: seq<Field>, defaults: nat, generated: nat, matrix: array2<Cell>,
                         draw: (nat, nat) -> string, r: nat, k: nat)
    requires BandsFilled(header, defaults, generated, matrix, draw) && r < matrix.Length0 && k < defaults + generated
    ensures matrix[r, k] != Nil
  {
  }

  lemma ThirdBandNotNil(matrix: array2<Cell>, from: nat, widths: seq<nat>, found: seq<seq<Row>>, r: nat, k: nat)
    requires KeysHold(matrix, from, widths, found) && |found| == |widths| && AllRowsWide(found, widths)
    requires r < matrix.Length0 && from <= k < matrix.Length1 && k - from < Offset(widths, |widths|)
    ensures matrix[r, k] != Nil
  {
    var n := BandOf(widths, k - from);
    assert KeyHolds(matrix, from, widths, n, found[n], matrix.Length0) && RowsWide(found[n], widths[n]);
    KeyCellWritten(matrix, from, widths, n, found[n], r, k);
  }

  /** The cell lies in one of the three bands. */
  lemma CellNotNil(columns: Columns, matrix: array2<Cell>, draw: (nat, nat) -> string, found: seq<seq<Row>>, r: nat,
                   k: nat)
    requires r < matrix.Length0 && k < matrix.Length1 && |found| == |columns.widths|
    requires BandsFilled(columns.Header(), |columns.asDefault|, |columns.toGen|, matrix, draw)
    requires KeysHold(matrix, |columns.asDefault| + |columns.toGen|, columns.widths, found)
    requires |columns.toSample| <= Offset(columns.widths, |columns.widths|) && AllRowsWide(found, columns.widths)
    ensures matrix[r, k] != Nil
  {
    var from := |columns.asDefault| + |columns.toGen|;
    if k < from {
      FirstBandsNotNil(columns.Header(), |columns.asDefault|, |columns.toGen|, matrix, draw, r, k);
    } else {
      ThirdBandNotNil(matrix, from, columns.widths, found, r, k);
    }
  }

  lemma NoCellNil(columns: Columns, matrix: array2<Cell>, draw: (nat, nat) -> string, found: seq<seq<Row>>)
    requires BandsFilled(columns.Header(), |columns.asDefault|, |columns.toGen|, matrix, draw)
    requires KeysHold(matrix, |columns.asDefault| + |columns.toGen|, columns.widths, found)
    requires |found| == |columns.widths| && AllRowsWide(found, columns.widths)
    requires |columns.toSample| <= Offset(columns.widths, |columns.widths|)
    ensures !HasNil(matrix)
  {
    forall r, k | 0 <= r < matrix.Length0 && 0 <= k < matrix.Length1
      ensures matrix[r, k] != Nil
    {
      CellNotNil(columns, matrix, draw, found, r, k);
    }
  }

  lemma AllRowsFound(s: Statement, count: nat, draw: (nat, nat) -> string, answers: Answers, found: seq<seq<Row>>,
                     got: nat)
    requires WellBuilt(s, count, draw, answers, found, got) && s.outcome == AllSampled
    requires AllWide(s.columns.keys, s.columns.widths, answers)
    ensures |found| == |s.columns.widths| && AllRowsWide(found, s.columns.widths)
  {
    FoundIsWide(s.columns.keys, s.columns.widths, answers, found, count);
  }

  /** If all keys were sampled no cell is left nil: the three bands are all columns. */
  lemma SampledMeansNoNil(s: Statement, count: nat, draw: (nat, nat) -> string, answers: Answers, found: seq<seq<Row>>,
                          got: nat)
    requires WellBuilt(s, count, draw, answers, found, got) && s.outcome == AllSampled
    requires |s.columns.toSample| <= Offset(s.columns.widths, |s.columns.widths|)
    requires AllWide(s.columns.keys, s.columns.widths, answers)
    ensures !HasNil(s.matrix)
  {
    AllRowsFound(s, count, draw, answers, found, got);
    NoCellNil(s.columns, s.matrix, draw, found);
  }

  /** If sampling failed before the last row of a key, a cell of that key is nil. */
  lemma FailedMeansNil(s: Statement, count: nat, draw: (nat, nat) -> string, answers: Answers, found: seq<seq<Row>>,
                       got: nat)
    requires WellBuilt(s, count, draw, answers, found, got) && s.outcome == KeyFailed && got < count
    requires s.columns.widths[|found|] > 0
    ensures HasNil(s.matrix)
  {
    var from := |s.columns.asDefault| + |s.columns.toGen|;
    var k := from + Offset(s.columns.widths, |found|);
    assert Untouched(from, s.columns.widths, |found|, got, got, k);
    assert s.matrix[got, k] == Nil;
  }

  function TextOf(c: Cell): string
    requires c != Nil
  {
    match c
    case Default => "DEFAULT"
    case Generated(_, text) => text
    case Sampled(text) => text
  }

  /** The texts with `sep` between them. */
  function Separated(texts: seq<string>, sep: string): string {
    if texts == [] then "" else if |texts| == 1 then texts[0] else texts[0] + sep + Separated(texts[1..], sep)
  }

  lemma {:induction false} SeparatedSnoc(texts: seq<string>, sep: string, t: string)
    ensures Separated(texts + [t], sep) == (if texts == [] then t else Separated(texts, sep) + sep + t)
  {
    if texts != [] {
      SeparatedSnoc(texts[1..], sep, t);
      assert (texts + [t])[1..] == texts[1..] + [t];
    }
  }

  function Texts(cells: seq<Cell>): (texts: seq<string>)
    requires Nil !in cells
    ensures |texts| == |cells| && forall k | 0 <= k < |cells| :: texts[k] == TextOf(cells[k])
  {
    if cells == [] then [] else [TextOf(cells[0])] + Texts(cells[1..])
  }

  lemma OneMoreText(cells: seq<Cell>, i: nat)
    requires i < |cells| && Nil !in cells[..i] && cells[i] != Nil
    ensures Nil !in cells[..i + 1]
    ensures Separated(Texts(cells[..i + 1]), ", ")
         == Separated(Texts(cells[..i]), ", ") + (if i == 0 then "" else ", ") + TextOf(cells[i])
  {
    var texts := Texts(cells[..i]);
    TakeOneMore(cells, i);
    assert Texts(cells[..i + 1]) == texts + [TextOf(cells[i])];
    SeparatedSnoc(texts, ", ", TextOf(cells[i]));
  }

  /** InsertValues.String: calling a method on a nil cell ends the program. */
  method RenderRow(cells: seq<Cell>) returns (query: Option<string>)
    ensures query.None? <==> Nil in cells
    ensures query.Some? ==> query.value == "(" + Separated(Texts(cells), ", ") + ")"
  {
    var sep := "";
    var text := "(";
    for i := 0 to |cells|
      invariant Nil !in cells[..i] && sep == (if i == 0 then "" else ", ")
      invariant text == "(" + Separated(Texts(cells[..i]), ", ")
    {
      if cells[i] == Nil {
        return None;
      }
      OneMoreText(cells, i);
      text := text + sep + TextOf(cells[i]);
      sep := ", ";
    }
    TakeAll(cells);
    query := Some(text + ")");
  }
}
