/** Copying parent keys into child rows (generate/samples.go): reading the answer
    of the database, and the query that is repeated until every slot is filled. */
module Sampling {
  import opened Text
  import opened Fields

  type Row = seq<string>

  /** A cell of the statement under construction; Go's nil until it is written. */
  datatype Cell = Nil | Default | Generated(column: string, text: string) | Sampled(text: string)

  /** What follows the rows of a result set: nothing, a row that cannot be
      scanned, a broken connection, or a failure to close it. */
  datatype Ending = End | ScanFails | Broken | CloseFails

  datatype Answer = QueryFails | Rows(rows: seq<Row>, ending: Ending)

  ghost predicate Wide(answers: nat -> Answer, width: nat) {
    forall k | answers(k).Rows? :: forall i | 0 <= i < |answers(k).rows| :: |answers(k).rows[i]| == width
  }

  /** The rows of answers `first` to `first + m - 1`, one after the other. */
  function Concat(answers: nat -> Answer, first: nat, m: nat): seq<Row>
    decreases m
  {
    if m == 0 then []
    else (if answers(first).Rows? then answers(first).rows else []) + Concat(answers, first + 1, m - 1)
  }

  /** An answer that lacks rows but can be followed by another query. */
  predicate Refillable(a: Answer) {
    a.Rows? && a.rows != [] && (a.ending.End? || a.ending.CloseFails?)
  }

  /** The first `m` answers, and none fewer, hold `n` rows. */
  ghost predicate Suffices(answers: nat -> Answer, first: nat, m: nat, n: nat) {
    && m > 0
    && (forall k | first <= k < first + m - 1 :: Refillable(answers(k)))
    && |Concat(answers, first, m - 1)| < n
    && answers(first + m - 1).Rows? && !answers(first + m - 1).ending.CloseFails?
    && |Concat(answers, first, m)| >= n
  }

  /** The `m`-th answer comes before `n` rows are there and cannot be followed
      up, or has them and then fails to close. */
  ghost predicate GivesUp(answers: nat -> Answer, first: nat, m: nat, n: nat) {
    && m > 0
    && (forall k | first <= k < first + m - 1 :: Refillable(answers(k)))
    && |Concat(answers, first, m - 1)| < n
    && var last := answers(first + m - 1);
    && !Suffices(answers, first, m, n) && !(Refillable(last) && |Concat(answers, first, m)| < n)
  }

  /** How asking for `n` rows ends with the `m`-th answer. */
  ghost predicate Ends(ok: bool, answers: nat -> Answer, first: nat, m: nat, n: nat) {
    if ok then Suffices(answers, first, m, n) else GivesUp(answers, first, m, n)
  }

  /** A sampler's slots: some columns of every row of the statement. */
  datatype Slots = Slots(matrix: array2<Cell>, from: nat, width: nat) {
    ghost predicate Fit() {
      from + width <= matrix.Length1
    }
  }

  ghost predicate Holds(slots: Slots, start: nat, rows: seq<Row>)
    requires slots.Fit() && start + |rows| <= slots.matrix.Length0
    requires forall i | 0 <= i < |rows| :: |rows[i]| == slots.width
    reads slots.matrix
  {
    forall i, f | 0 <= i < |rows| && 0 <= f < slots.width ::
      slots.matrix[start + i, slots.from + f] == Sampled(rows[i][f])
  }

  /** Nothing but the columns of these slots, in rows `start` to `end - 1`, has changed. */
  twostate predicate OnlyWrote(slots: Slots, start: nat, end: nat)
    reads slots.matrix
  {
    forall r, c | 0 <= r < slots.matrix.Length0 && 0 <= c < slots.matrix.Length1
      && !(start <= r < end && slots.from <= c < slots.from + slots.width) ::
      slots.matrix[r, c] == old(slots.matrix[r, c])
  }

  lemma {:induction false} ConcatWide(answers: nat -> Answer, first: nat, m: nat, width: nat)
    requires Wide(answers, width)
    ensures forall i | 0 <= i < |Concat(answers, first, m)| :: |Concat(answers, first, m)[i]| == width
    decreases m
  {
    if m > 0 {
      ConcatWide(answers, first + 1, m - 1, width);
    }
  }

  // Which slots are written, in which order.

  function RowCells(row: nat, from: nat, width: nat): (cells: seq<(nat, nat)>)
    ensures |cells| == width && forall f | 0 <= f < width :: cells[f] == (row, from + f)
  {
    if width == 0 then [] else RowCells(row, from, width - 1) + [(row, from + width - 1)]
  }

  /** All slots of rows `start` to `start + n - 1`, row by row. */
  function AllCells(start: nat, n: nat, from: nat, width: nat): seq<(nat, nat)> {
    if n == 0 then [] else AllCells(start, n - 1, from, width) + RowCells(start + n - 1, from, width)
  }

  lemma {:induction false} AllCellsBoth(start: nat, a: nat, b: nat, from: nat, width: nat)
    ensures AllCells(start, a, from, width) + AllCells(start + a, b, from, width) == AllCells(start, a + b, from, width)
  {
    if b == 0 {
      assert AllCells(start, a, from, width) + [] == AllCells(start, a, from, width);
    } else {
      AllCellsBoth(start, a, b - 1, from, width);
      var row := RowCells(start + a + b - 1, from, width);
      Regroup(AllCells(start, a, from, width), AllCells(start + a, b - 1, from, width), row);
    }
  }

  ghost function CellsTogether(start: nat, a: nat, n: nat, from: nat, width: nat, earlier: seq<(nat, nat)>,
                               later: seq<(nat, nat)>)
    : (cells: seq<(nat, nat)>)
    requires a <= n && earlier == AllCells(start, a, from, width) && later == AllCells(start + a, n - a, from, width)
    ensures cells == AllCells(start, n, from, width)
  {
    AllCellsBoth(start, a, n - a, from, width);
    earlier + later
  }

  /** No slot comes twice. */
  lemma {:induction false} AllCellsDiffer(start: nat, n: nat, from: nat, width: nat)
    ensures forall i, j | 0 <= i < j < |AllCells(start, n, from, width)| ::
      AllCells(start, n, from, width)[i] != AllCells(start, n, from, width)[j]
    ensures forall i | 0 <= i < |AllCells(start, n, from, width)| ::
      var (r, c) := AllCells(start, n, from, width)[i]; start <= r < start + n && from <= c < from + width
  {
    if n > 0 {
      AllCellsDiffer(start, n - 1, from, width);
    }
  }

  /** One row, cell by cell. */
  method ReadRow(slots: Slots, row: nat, values: Row) returns (ghost writes: seq<(nat, nat)>)
    requires slots.Fit() && row < slots.matrix.Length0 && |values| == slots.width
    modifies slots.matrix
    ensures OnlyWrote(slots, row, row + 1) && writes == RowCells(row, slots.from, slots.width)
    ensures forall f | 0 <= f < slots.width :: slots.matrix[row, slots.from + f] == Sampled(values[f])
  {
    writes := [];
    for f := 0 to slots.width
      invariant writes == RowCells(row, slots.from, f) && OnlyWrote(slots, row, row + 1)
      invariant forall k | 0 <= k < f :: slots.matrix[row, slots.from + k] == Sampled(values[k])
    {
      slots.matrix[row, slots.from + f] := Sampled(values[f]);
      writes := writes + [(row, slots.from + f)];
    }
  }

  /** Reads one result set into the slots from row `start` on, at most `n` rows. */
  method ReadRows(slots: Slots, start: nat, n: nat, rows: seq<Row>)
    returns (got: nat, ghost writes: seq<(nat, nat)>)
    requires slots.Fit() && start + n <= slots.matrix.Length0
    requires forall i | 0 <= i < |rows| :: |rows[i]| == slots.width
    modifies slots.matrix
    ensures got == (if |rows| < n then |rows| else n)
    ensures Holds(slots, start, rows[..got]) && OnlyWrote(slots, start, start + got)
    ensures writes == AllCells(start, got, slots.from, slots.width)
  {
    got, writes := 0, [];
    while got < |rows| && got < n
      invariant got <= |rows| && got <= n && writes == AllCells(start, got, slots.from, slots.width)
      invariant Holds(slots, start, rows[..got]) && OnlyWrote(slots, start, start + got)
    {
      ghost var cells := ReadRow(slots, start + got, rows[got]);
      writes := writes + cells;
      got := got + 1;
    }
  }

  /** What the first answer alone decides. */
  lemma OneAnswer(answers: nat -> Answer, first: nat, n: nat)
    requires n > 0
    ensures Concat(answers, first, 1) == if answers(first).Rows? then answers(first).rows else []
    ensures
      var a := answers(first);
      var full := a.Rows? && |a.rows| >= n;
      full || !Refillable(a) ==> Ends(full && !a.ending.CloseFails?, answers, first, 1, n)
  {
    assert Concat(answers, first + 1, 0) == [];
    assert Concat(answers, first, 0) == [];
  }

  lemma ConcatOneMore(answers: nat -> Answer, first: nat, m: nat)
    requires answers(first).Rows?
    ensures Concat(answers, first, m + 1) == answers(first).rows + Concat(answers, first + 1, m)
  {
  }

  lemma RefilledOnce(ok: bool, answers: nat -> Answer, first: nat, m: nat, n: nat)
    requires Refillable(answers(first)) && |answers(first).rows| < n
    requires Ends(ok, answers, first + 1, m, n - |answers(first).rows|)
    ensures Ends(ok, answers, first, m + 1, n)
  {
    ConcatOneMore(answers, first, m);
    ConcatOneMore(answers, first, m - 1);
  }

  lemma HoldsBoth(slots: Slots, start: nat, a: seq<Row>, b: seq<Row>)
    requires slots.Fit() && start + |a| + |b| <= slots.matrix.Length0
    requires forall i | 0 <= i < |a + b| :: |(a + b)[i]| == slots.width
    requires forall i | 0 <= i < |a| :: |a[i]| == slots.width
    requires forall i | 0 <= i < |b| :: |b[i]| == slots.width
    requires Holds(slots, start, a) && Holds(slots, start + |a|, b)
    ensures Holds(slots, start, a + b)
  {
    forall i, f | 0 <= i < |a + b| && 0 <= f < slots.width
      ensures slots.matrix[start + i, slots.from + f] == Sampled((a + b)[i][f])
    {
      if i >= |a| {
        assert slots.matrix[start + |a| + (i - |a|), slots.from + f] == Sampled(b[i - |a|][f]);
      }
    }
  }

  /** The first `got` rows of these answers stand in the slots from row `start` on. */
  ghost predicate Refilled(slots: Slots, start: nat, answers: nat -> Answer, call: nat, m: nat, got: nat)
    requires Wide(answers, slots.width)
    reads slots.matrix
  {
    && slots.Fit() && start + got <= slots.matrix.Length0 && got <= |Concat(answers, call, m)|
    && (ConcatWide(answers, call, m, slots.width); Holds(slots, start, Concat(answers, call, m)[..got]))
  }

  lemma RefillHolds(slots: Slots, start: nat, answers: nat -> Answer, call: nat, m: nat, got: nat)
    requires slots.Fit() && Wide(answers, slots.width) && Refillable(answers(call))
    requires start + |answers(call).rows| <= slots.matrix.Length0 && Holds(slots, start, answers(call).rows)
    requires Refilled(slots, start + |answers(call).rows|, answers, call + 1, m, got)
    ensures Refilled(slots, start, answers, call, m + 1, |answers(call).rows| + got)
  {
    var rows, more := answers(call).rows, Concat(answers, call + 1, m);
    ConcatWide(answers, call + 1, m, slots.width);
    ConcatWide(answers, call, m + 1, slots.width);
    ConcatOneMore(answers, call, m);
    assert Concat(answers, call, m + 1)[..|rows| + got] == rows + more[..got];
    HoldsBoth(slots, start, rows, more[..got]);
  }

  /** The recursive refill. It succeeds exactly when some number of answers holds
      enough rows before one of them fails or is empty, and then the slots hold the first `n`
      rows of all those answers in order; if it fails, the slots written so far
      hold a prefix. The slots are written row by row, each once (AllCellsDiffer). */
  method Query(slots: Slots, start: nat, n: nat, answers: nat -> Answer, call: nat)
    returns (ok: bool, ghost m: nat, ghost got: nat, ghost writes: seq<(nat, nat)>)
    requires slots.Fit() && start + n <= slots.matrix.Length0 && n > 0 && Wide(answers, slots.width)
    modifies slots.matrix
    ensures Ends(ok, answers, call, m, n) && (ok ==> got == n)
    ensures got <= n && Refilled(slots, start, answers, call, m, got)
    ensures OnlyWrote(slots, start, start + got)
    ensures writes == AllCells(start, got, slots.from, slots.width)
    decreases n, 2
  {
    var answer := answers(call);
    OneAnswer(answers, call, n);
    ok, m, got, writes := false, 1, 0, [];
    if answer.QueryFails? {
      return;
    }
    var rowIdx;
    rowIdx, writes := ReadRows(slots, start, n, answer.rows);
    got := rowIdx;
    if rowIdx == n {
      ok := !answer.ending.CloseFails?;
      return;
    }
    if rowIdx == 0 || answer.ending.ScanFails? || answer.ending.Broken? {
      return;
    }
    ghost var later;
    ok, m, got, later := QueryAgain(slots, start, rowIdx, n, answers, call);
    writes := CellsTogether(start, rowIdx, got, slots.from, slots.width, writes, later);
  }

  ghost predicate RefillEnds(slots: Slots, start: nat, answers: nat -> Answer, call: nat, ok: bool, m: nat, got: nat,
                             n: nat)
    requires Wide(answers, slots.width)
    reads slots.matrix
  {
    Ends(ok, answers, call, m, n) && Refilled(slots, start, answers, call, m, got)
  }

  lemma RefilledAgain(slots: Slots, start: nat, n: nat, answers: nat -> Answer, call: nat, ok: bool, m: nat, got: nat)
    requires slots.Fit() && start + n <= slots.matrix.Length0 && Wide(answers, slots.width)
    requires Refillable(answers(call)) && |answers(call).rows| <= got && |answers(call).rows| < n
    requires Holds(slots, start, answers(call).rows)
    requires Ends(ok, answers, call + 1, m, n - |answers(call).rows|)
    requires Refilled(slots, start + |answers(call).rows|, answers, call + 1, m, got - |answers(call).rows|)
    ensures RefillEnds(slots, start, answers, call, ok, m + 1, got, n)
  {
    RefilledOnce(ok, answers, call, m, n);
    RefillHolds(slots, start, answers, call, m, got - |answers(call).rows|);
  }

  /** The recursive call, for the rows still missing after `rowIdx`. */
  method QueryAgain(slots: Slots, start: nat, rowIdx: nat, n: nat, answers: nat -> Answer, call: nat)
    returns (ok: bool, ghost m: nat, ghost got: nat, ghost writes: seq<(nat, nat)>)
    requires slots.Fit() && start + n <= slots.matrix.Length0 && Wide(answers, slots.width)
    requires Refillable(answers(call)) && rowIdx == |answers(call).rows| < n && Holds(slots, start, answers(call).rows)
    modifies slots.matrix
    ensures rowIdx <= got <= n && (ok ==> got == n) && RefillEnds(slots, start, answers, call, ok, m, got, n)
    ensures OnlyWrote(slots, start + rowIdx, start + got)
    ensures writes == AllCells(start + rowIdx, got - rowIdx, slots.from, slots.width)
    decreases n, 1
  {
    ok, m, got, writes := QueryRest(slots, start, answers(call).rows, rowIdx, n, answers, call + 1);
    RefilledAgain(slots, start, n, answers, call, ok, m, got);
    m := m + 1;
  }

  /** It leaves the rows already there alone. */
  method QueryRest(slots: Slots, start: nat, ghost rows: seq<Row>, rowIdx: nat, n: nat, answers: nat -> Answer,
                   call: nat)
    returns (ok: bool, ghost m: nat, ghost got: nat, ghost writes: seq<(nat, nat)>)
    requires slots.Fit() && start + n <= slots.matrix.Length0 && Wide(answers, slots.width)
    requires 0 < rowIdx == |rows| < n && forall i | 0 <= i < |rows| :: |rows[i]| == slots.width
    requires Holds(slots, start, rows)
    modifies slots.matrix
    ensures Ends(ok, answers, call, m, n - rowIdx) && (ok ==> got == n)
    ensures rowIdx <= got <= n && Refilled(slots, start + rowIdx, answers, call, m, got - rowIdx)
    ensures OnlyWrote(slots, start + rowIdx, start + got) && Holds(slots, start, rows)
    ensures writes == AllCells(start + rowIdx, got - rowIdx, slots.from, slots.width)
    decreases n, 0
  {
    ok, m, got, writes := Query(slots, start + rowIdx, n - rowIdx, answers, call);
    got := rowIdx + got;
  }

  lemma {:induction false} ConcatGrows(answers: nat -> Answer, first: nat, a: nat, b: nat)
    requires a <= b
    ensures |Concat(answers, first, a)| <= |Concat(answers, first, b)|
    decreases a
  {
    if a > 0 {
      ConcatGrows(answers, first + 1, a - 1, b - 1);
    }
  }

  /** Success and failure exclude each other, whatever the number of answers:
      the outcome is decided by the answers alone. */
  lemma OutcomeIsDecided(answers: nat -> Answer, first: nat, m: nat, k: nat, n: nat)
    requires Suffices(answers, first, m, n)
    ensures !GivesUp(answers, first, k, n)
  {
    if 0 < k < m {
      ConcatGrows(answers, first, k, m - 1);
      assert Refillable(answers(first + k - 1));
    } else if k > m {
      ConcatGrows(answers, first, m, k - 1);
    }
  }
}
