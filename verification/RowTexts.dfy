/** The text of a row of the insert statement, from the columns and answers it is
    made of (generate/getters.go InsertValues.String). */
module RowTexts {
  import opened Text
  import opened Fields
  import opened Sampling
  import opened Schema
  import opened RowLayout

  function RowOf(matrix: array2<Cell>, r: nat): (cells: seq<Cell>)
    requires r < matrix.Length0
    reads matrix
    ensures |cells| == matrix.Length1 && forall k | 0 <= k < |cells| :: cells[k] == matrix[r, k]
  {
    seq(matrix.Length1, k requires 0 <= k < matrix.Length1 reads matrix => matrix[r, k])
  }

  /** The values of the `r`-th rows found for the first `n` keys, one after the other. */
  function ParentValues(found: seq<seq<Row>>, r: nat, n: nat): seq<string>
    requires n <= |found| && forall rows <- found :: r < |rows|
  {
    if n == 0 then [] else ParentValues(found, r, n - 1) + found[n - 1][r]
  }

  /** What the program means to write in row `r`: the defaults, the generated
      values, and for each key a row of its parent. */
  function RowMeant(defaults: nat, generated: nat, draw: (nat, nat) -> string, found: seq<seq<Row>>, r: nat)
    : (texts: seq<string>)
    requires forall rows <- found :: r < |rows|
    ensures |texts| == defaults + generated + |ParentValues(found, r, |found|)|
  {
    seq(defaults, _ => "DEFAULT") + seq(generated, k requires 0 <= k < generated => draw(r, k))
    + ParentValues(found, r, |found|)
  }

  lemma MeantAt(defaults: nat, generated: nat, draw: (nat, nat) -> string, found: seq<seq<Row>>, r: nat, k: nat)
    requires forall rows <- found :: r < |rows|
    requires k < |RowMeant(defaults, generated, draw, found, r)|
    ensures RowMeant(defaults, generated, draw, found, r)[k] ==
      if k < defaults then "DEFAULT"
      else if k < defaults + generated then draw(r, k - defaults)
      else ParentValues(found, r, |found|)[k - defaults - generated]
  {
  }

  lemma {:induction false} ParentValueAt(found: seq<seq<Row>>, widths: seq<nat>, r: nat, n: nat, b: nat, f: nat)
    requires |found| == |widths| && AllRowsWide(found, widths) && forall rows <- found :: r < |rows|
    requires n <= |found|
    ensures |ParentValues(found, r, n)| == Offset(widths, n)
    ensures b < n && f < widths[b] ==>
      Offset(widths, b) + f < Offset(widths, n) && f < |found[b][r]| &&
      ParentValues(found, r, n)[Offset(widths, b) + f] == found[b][r][f]
  {
    if n > 0 {
      assert RowsWide(found[n - 1], widths[n - 1]);
      ParentValueAt(found, widths, r, n - 1, b, f);
    }
  }

  lemma FirstTexts(columns: Columns, matrix: array2<Cell>, draw: (nat, nat) -> string, r: nat, k: nat)
    requires BandsFilled(columns.Header(), |columns.asDefault|, |columns.toGen|, matrix, draw)
    requires r < matrix.Length0 && k < |columns.asDefault| + |columns.toGen|
    ensures matrix[r, k] != Nil
    ensures TextOf(matrix[r, k]) == if k < |columns.asDefault| then "DEFAULT" else draw(r, k - |columns.asDefault|)
  {
  }

  lemma KeyTexts(matrix: array2<Cell>, from: nat, widths: seq<nat>, found: seq<seq<Row>>, r: nat, k: nat)
    requires KeysHold(matrix, from, widths, found) && |found| == |widths| && AllRowsWide(found, widths)
    requires r < matrix.Length0 && from <= k < matrix.Length1 && k - from < Offset(widths, |widths|)
    requires forall rows <- found :: r < |rows|
    ensures |ParentValues(found, r, |found|)| == Offset(widths, |widths|)
    ensures matrix[r, k] != Nil && TextOf(matrix[r, k]) == ParentValues(found, r, |found|)[k - from]
  {
    var n := BandOf(widths, k - from);
    var f := k - from - Offset(widths, n);
    ParentValueAt(found, widths, r, |found|, n, f);
    assert KeyHolds(matrix, from, widths, n, found[n], matrix.Length0);
    assert matrix[r, from + Offset(widths, n) + f] == Sampled(found[n][r][f]);
  }

  lemma FoundHasRow(cs: seq<Constraint>, answers: Answers, found: seq<seq<Row>>, count: nat, r: nat)
    requires AllFound(cs, answers, found, count) && r < count
    ensures forall rows <- found :: r < |rows|
  {
    forall n | 0 <= n < |found|
      ensures r < |found[n]|
    {
      assert FoundFor(answers(cs[n]), found[n], count);
    }
  }

  ghost predicate FilledFor(columns: Columns, matrix: array2<Cell>, draw: (nat, nat) -> string, found: seq<seq<Row>>)
    reads matrix
  {
    && BandsFilled(columns.Header(), |columns.asDefault|, |columns.toGen|, matrix, draw)
    && KeysHold(matrix, |columns.asDefault| + |columns.toGen|, columns.widths, found)
    && |found| == |columns.widths| && AllRowsWide(found, columns.widths)
    && |columns.toSample| == Offset(columns.widths, |columns.widths|)
  }

  lemma LengthMeant(columns: Columns, matrix: array2<Cell>, draw: (nat, nat) -> string, found: seq<seq<Row>>, r: nat)
    requires FilledFor(columns, matrix, draw, found) && r < matrix.Length0 && forall rows <- found :: r < |rows|
    ensures |RowMeant(|columns.asDefault|, |columns.toGen|, draw, found, r)| == matrix.Length1
  {
    ParentValueAt(found, columns.widths, r, |found|, 0, 0);
  }

  lemma TextAt(columns: Columns, matrix: array2<Cell>, draw: (nat, nat) -> string, found: seq<seq<Row>>, r: nat, k: nat)
    requires FilledFor(columns, matrix, draw, found) && r < matrix.Length0 && k < matrix.Length1
    requires forall rows <- found :: r < |rows|
    requires k < |RowMeant(|columns.asDefault|, |columns.toGen|, draw, found, r)|
    ensures matrix[r, k] != Nil
    ensures TextOf(matrix[r, k]) == RowMeant(|columns.asDefault|, |columns.toGen|, draw, found, r)[k]
  {
    var from := |columns.asDefault| + |columns.toGen|;
    MeantAt(|columns.asDefault|, |columns.toGen|, draw, found, r, k);
    if k < from {
      FirstTexts(columns, matrix, draw, r, k);
    } else {
      KeyTexts(matrix, from, columns.widths, found, r, k);
    }
  }

  lemma RowFromBands(columns: Columns, matrix: array2<Cell>, draw: (nat, nat) -> string, found: seq<seq<Row>>, r: nat)
    requires FilledFor(columns, matrix, draw, found) && r < matrix.Length0 && forall rows <- found :: r < |rows|
    ensures Nil !in RowOf(matrix, r)
    ensures Texts(RowOf(matrix, r)) == RowMeant(|columns.asDefault|, |columns.toGen|, draw, found, r)
  {
    LengthMeant(columns, matrix, draw, found, r);
    var cells, meant := RowOf(matrix, r), RowMeant(|columns.asDefault|, |columns.toGen|, draw, found, r);
    forall k | 0 <= k < |cells|
      ensures cells[k] != Nil && TextOf(cells[k]) == meant[k]
    {
      TextAt(columns, matrix, draw, found, r, k);
    }
  }

  /** If all keys were sampled and are as wide as the header says, every row of the
      statement is written as it is meant: DEFAULT for each default, the text drawn for each
      generated column, and key by key the values of one parent row, in order. */
  lemma RowIsAsMeant(s: Statement, count: nat, draw: (nat, nat) -> string, answers: Answers, found: seq<seq<Row>>,
                     got: nat, r: nat)
    requires WellBuilt(s, count, draw, answers, found, got) && s.outcome == AllSampled && r < count
    requires |s.columns.toSample| == Offset(s.columns.widths, |s.columns.widths|)
    requires AllWide(s.columns.keys, s.columns.widths, answers)
    ensures (forall rows <- found :: r < |rows|) && Nil !in RowOf(s.matrix, r)
    ensures Texts(RowOf(s.matrix, r)) == RowMeant(|s.columns.asDefault|, |s.columns.toGen|, draw, found, r)
  {
    FoundHasRow(s.columns.keys, answers, found, count, r);
    AllRowsFound(s, count, draw, answers, found, got);
    RowFromBands(s.columns, s.matrix, draw, found, r);
  }
}
