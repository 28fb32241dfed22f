/** The samplers of generate/samples.go, and what the sequential one hands to
    the rows of a whole run with a single worker. */
module Samplers {
  import opened Text
  import opened Sampling
  import opened WorkerProtocol

  /** What the database answers to the page query with this limit and offset,
      call by call. */
  type Pages = (nat, nat) -> (nat -> Answer)

  class UniformSample {
    const limit: nat
    var values: Slots
    var lastOffset: nat

    constructor (values: Slots)
      ensures this.values == values && limit == values.matrix.Length0 && lastOffset == 0
    {
      this.values, limit, lastOffset := values, values.matrix.Length0, 0;
    }

    /** Takes the next page, and the same page again while rows are lacking. */
    method Sample(pages: Pages) returns (ok: bool, ghost m: nat, ghost got: nat)
      requires values.Fit() && values.matrix.Length0 > 0 && Wide(pages(limit, lastOffset), values.width)
      modifies this`lastOffset, values.matrix
      ensures lastOffset == old(lastOffset) + limit
      ensures
        var answers, n := pages(limit, old(lastOffset)), values.matrix.Length0;
        && Ends(ok, answers, 0, m, n) && (ok ==> got == n)
        && got <= n && Refilled(values, 0, answers, 0, m, got)
        && OnlyWrote(values, 0, got)
    {
      var answers := pages(limit, lastOffset);
      lastOffset := lastOffset + limit;
      ghost var writes;
      ok, m, got, writes := Query(values, 0, values.matrix.Length0, answers, 0);
    }
  }

  /** The samplers in use, by table and constraint name (storedUniformSamples). */
  class SampleStore {
    var stored: map<string, UniformSample>

    /** A sampler was made for a statement that had rows. */
    ghost predicate Valid()
      reads this
    {
      forall k <- stored :: stored[k].limit > 0
    }

    constructor ()
      ensures stored == map[] && Valid()
    {
      stored := map[];
    }

    /** A sampler lives on from statement to statement, with new slots but its
        old limit and offset. */
    method NewUniformSample(tablename: string, constraintName: string, values: Slots) returns (s: UniformSample)
      requires Valid() && values.matrix.Length0 > 0
      modifies this, if tablename + constraintName in stored then {stored[tablename + constraintName]} else {}
      ensures Valid() && s.values == values
      ensures tablename + constraintName in old(stored) ==>
        stored == old(stored) && s == stored[tablename + constraintName] && s.lastOffset == old(s.lastOffset)
      ensures tablename + constraintName !in old(stored) ==>
        && fresh(s) && stored == old(stored)[tablename + constraintName := s]
        && s.limit == values.matrix.Length0 && s.lastOffset == 0
    {
      if tablename + constraintName in stored {
        s := stored[tablename + constraintName];
        s.values := values;
        return;
      }
      s := new UniformSample(values);
      stored := stored[tablename + constraintName := s];
    }
  }

  // A parent table that does not change during the run.

  function Page(parent: seq<Row>, limit: nat, offset: nat): seq<Row> {
    if offset >= |parent| then []
    else if offset + limit >= |parent| then parent[offset..]
    else parent[offset..offset + limit]
  }

  function Always(page: seq<Row>): nat -> Answer {
    _ => Rows(page, End)
  }

  function StaticPages(parent: seq<Row>): Pages {
    (limit, offset) => Always(Page(parent, limit, offset))
  }

  /** `i` modulo `n`, by counting down. */
  function Wrap(i: nat, n: nat): (r: nat)
    requires n > 0
    ensures r < n
  {
    if i < n then i else Wrap(i - n, n)
  }

  lemma {:induction false} OneMoreFactor(x: nat, y: nat, n: nat)
    requires x > y
    ensures x * n >= y * n + n
  {
    if x > y + 1 {
      OneMoreFactor(x - 1, y, n);
    }
    assert x * n == (x - 1) * n + n;
  }

  lemma DivisionIsUnique(a: nat, n: nat, q: nat, r: nat)
    requires r < n && a == q * n + r
    ensures a / n == q && a % n == r
  {
    ghost var p, s := a / n, a % n;
    assert a == p * n + s;
    if q > p {
      OneMoreFactor(q, p, n);
    } else if q < p {
      OneMoreFactor(p, q, n);
    }
  }

  lemma {:induction false} WrapIsMod(i: nat, n: nat)
    requires n > 0
    ensures Wrap(i, n) == i % n
  {
    if i < n {
      DivisionIsUnique(i, n, 0, i);
    } else {
      WrapIsMod(i - n, n);
      var q, r := (i - n) / n, (i - n) % n;
      assert i == (q + 1) * n + r;
      DivisionIsUnique(i, n, q + 1, r);
    }
  }

  /** The same page over and over. */
  lemma {:induction false} ConcatAlways(page: seq<Row>, first: nat, m: nat)
    requires page != []
    ensures forall i | 0 <= i < |Concat(Always(page), first, m)| ::
      Concat(Always(page), first, m)[i] == page[Wrap(i, |page|)]
    decreases m
  {
    if m > 0 {
      var rest := Concat(Always(page), first + 1, m - 1);
      ConcatAlways(page, first + 1, m - 1);
      assert Concat(Always(page), first, m) == page + rest;
    }
  }

  /** Refilling from a fixed page works exactly when the page is not empty. */
  lemma StaticOutcome(page: seq<Row>, m: nat, n: nat)
    ensures Suffices(Always(page), 0, m, n) ==> page != []
    ensures GivesUp(Always(page), 0, m, n) ==> page == []
  {
    if page == [] {
      NothingFromNothing(0, m);
    }
  }

  lemma {:induction false} NothingFromNothing(first: nat, m: nat)
    ensures Concat(Always([]), first, m) == []
    decreases m
  {
    if m > 0 {
      NothingFromNothing(first + 1, m - 1);
    }
  }

  function Min(a: int, b: int): int {
    if a <= b then a else b
  }

  /** The parent row for slot `r` of the statement that starts at `offset`. */
  function ParentRow(parent: seq<Row>, limit: nat, offset: nat, r: nat): Row
    requires limit > 0 && offset < |parent|
  {
    var size := Min(limit, |parent| - offset);
    parent[offset + Wrap(r, size)]
  }

  ghost predicate Filled(matrix: array2<Cell>, parent: seq<Row>, limit: nat, offset: nat, width: nat)
    requires limit > 0 && offset < |parent| && matrix.Length1 == width
    requires forall i | 0 <= i < |parent| :: |parent[i]| == width
    reads matrix
  {
    forall r, f | 0 <= r < matrix.Length0 && 0 <= f < width ::
      matrix[r, f] == Sampled(ParentRow(parent, limit, offset, r)[f])
  }

  ghost predicate HasWidth(parent: seq<Row>, width: nat) {
    forall i | 0 <= i < |parent| :: |parent[i]| == width
  }

  /** Sampling one statement succeeds exactly when its offset still lies within
      the parent. */
  method SampleChunk(sampler: UniformSample, parent: seq<Row>, ghost n: nat, ghost width: nat) returns (ok: bool)
    requires n > 0 && sampler.limit > 0 && HasWidth(parent, width)
    requires sampler.values.from == 0 && sampler.values.width == width == sampler.values.matrix.Length1
    requires sampler.values.matrix.Length0 == n
    modifies sampler`lastOffset, sampler.values.matrix
    ensures sampler.lastOffset == old(sampler.lastOffset) + sampler.limit
    ensures ok <==> old(sampler.lastOffset) < |parent|
    ensures ok ==> Filled(sampler.values.matrix, parent, sampler.limit, old(sampler.lastOffset), width)
  {
    ghost var slots, offset := sampler.values, sampler.lastOffset;
    ghost var page := Page(parent, sampler.limit, offset);
    ghost var m, got;
    ok, m, got := sampler.Sample(StaticPages(parent));
    StaticOutcome(page, m, n);
    if ok {
      ConcatAlways(page, 0, m);
      forall r, f | 0 <= r < n && 0 <= f < width
        ensures slots.matrix[r, f] == Sampled(ParentRow(parent, sampler.limit, offset, r)[f])
      {
        assert slots.matrix[0 + r, slots.from + f] == Sampled(Concat(Always(page), 0, m)[..got][r][f]);
      }
    }
  }

  // A whole run with one worker and no retries.

  /** Where the `q`-th statement starts. */
  function Start(q: nat, limit: nat): nat {
    q * limit
  }

  /** A run samples `size` rows per statement (fewer in the last one); its sampler
      turns pages of `limit` rows, and its first page starts at `first`. A run with a new
      sampler starts at 0 with pages as long as its statements; one that finds a
      sampler in the store - the second insert into a split table - goes on
      where, and with the pages that, the earlier run left. */
  datatype Paging = Paging(first: nat, limit: nat, size: nat) {
    predicate Valid() {
      limit > 0 && size > 0
    }

    function Offset(q: nat): nat {
      first + Start(q, limit)
    }
  }

  ghost predicate ChunkFits(chunk: array2<Cell>, parent: seq<Row>, p: Paging, q: nat, width: nat, count: nat)
    requires p.Valid() && HasWidth(parent, width)
    reads chunk
  {
    && p.Offset(q) < |parent| && Start(q, p.size) < count
    && chunk.Length0 == Min(p.size, count - Start(q, p.size)) && chunk.Length1 == width
    && Filled(chunk, parent, p.limit, p.Offset(q), width)
  }

  /** The state between two statements: the sampler, if there is one yet, stands
      where the next statement starts. */
  ghost predicate Standing(store: SampleStore, key: string, q: nat, p: Paging)
    reads store, store.stored.Values
  {
    && store.Valid()
    && if key in store.stored then store.stored[key].limit == p.limit && store.stored[key].lastOffset == p.Offset(q)
       else q == 0 && p.first == 0 && p.limit == p.size
  }

  ghost function PagingFor(store: SampleStore, key: string, size: nat): Paging
    reads store, store.stored.Values
  {
    if key in store.stored then Paging(store.stored[key].lastOffset, store.stored[key].limit, size)
    else Paging(0, size, size)
  }

  /** One job of the run, not empty. */
  method SampleJob(store: SampleStore, tablename: string, constraintName: string, parent: seq<Row>, width: nat, n: nat,
                   ghost q: nat, ghost p: Paging, ghost count: nat)
    returns (ok: bool, chunk: array2<Cell>)
    requires HasWidth(parent, width) && p.Valid() && Start(q, p.size) < count
    requires n == Min(p.size, count - Start(q, p.size))
    requires Standing(store, tablename + constraintName, q, p) && (q == 0 ==> n == p.size)
    modifies store, store.stored.Values
    ensures fresh(chunk) && fresh(store.stored.Values - old(store.stored.Values))
    ensures tablename + constraintName in store.stored && Standing(store, tablename + constraintName, q + 1, p)
    ensures ok <==> p.Offset(q) < |parent|
    ensures ok ==> ChunkFits(chunk, parent, p, q, width, count)
  {
    chunk := new Cell[n, width]((r, c) => Nil);
    var sampler := store.NewUniformSample(tablename, constraintName, Slots(chunk, 0, width));
    ok := SampleChunk(sampler, parent, n, width);
  }

  lemma StartsGrow(a: nat, b: nat, limit: nat)
    requires a <= b
    ensures Start(a, limit) <= Start(b, limit)
    ensures a < b ==> Start(a, limit) + limit <= Start(b, limit)
  {
    if a < b {
      OneMoreFactor(b, a, limit);
    }
  }

  ghost predicate AllFit(chunks: seq<array2<Cell>>, parent: seq<Row>, p: Paging, width: nat, count: nat)
    requires p.Valid() && HasWidth(parent, width)
    reads chunks
  {
    forall q | 0 <= q < |chunks| :: ChunkFits(chunks[q], parent, p, q, width, count)
  }

  ghost predicate EveryStartInside(parent: seq<Row>, p: Paging, count: nat) {
    forall q: nat | Start(q, p.size) < count :: p.Offset(q) < |parent|
  }

  lemma AllStartsInside(chunks: seq<array2<Cell>>, parent: seq<Row>, p: Paging, width: nat, count: nat)
    requires p.Valid() && HasWidth(parent, width) && AllFit(chunks, parent, p, width, count)
    requires Start(|chunks|, p.size) >= count
    ensures EveryStartInside(parent, p, count)
  {
    forall q: nat | Start(q, p.size) < count
      ensures p.Offset(q) < |parent|
    {
      if q >= |chunks| {
        StartsGrow(|chunks|, q, p.size);
      } else {
        assert ChunkFits(chunks[q], parent, p, q, width, count);
      }
    }
  }

  /** It is enough to look at the last statement. */
  lemma LastStartDecides(parent: seq<Row>, p: Paging, count: nat)
    requires p.Valid() && count > 0
    ensures EveryStartInside(parent, p, count) <==> p.first + (count - 1) / p.size * p.limit < |parent|
  {
    var last := (count - 1) / p.size;
    assert Start(last, p.size) <= count - 1 < Start(last, p.size) + p.size;
    forall q: nat | Start(q, p.size) < count
      ensures p.Offset(q) <= p.Offset(last)
    {
      if q > last {
        StartsGrow(last, q, p.size);
      } else {
        StartsGrow(q, last, p.limit);
      }
    }
  }

  /** The job at position `q` asks for the rows of statement `q`. */
  lemma JobOfStatement(jobs: seq<nat>, count: nat, bulksize: nat, size: nat, q: nat)
    requires size == Min(bulksize, count) && bulksize > 0 && count > 0 && |jobs| == count / bulksize + 1 && q < |jobs|
    requires forall i | 0 <= i < |jobs| - 1 :: jobs[i] == bulksize
    requires jobs[|jobs| - 1] == count - count / bulksize * bulksize < bulksize
    ensures
      if jobs[q] == 0 then Start(q, size) == count
      else Start(q, size) < count && jobs[q] == Min(size, count - Start(q, size)) && (q == 0 ==> jobs[q] == size)
    ensures q == |jobs| - 1 ==> Start(q + 1, size) >= count
  {
    var complete := count / bulksize;
    if q < complete {
      StartsGrow(q, complete, bulksize);
    }
    if complete > 0 {
      StartsGrow(1, complete, bulksize);
    }
  }

  /** The statements before it keep their rows. */
  method SampleNextJob(store: SampleStore, tablename: string, constraintName: string, parent: seq<Row>, width: nat,
                       n: nat, chunks: seq<array2<Cell>>, ghost p: Paging, ghost count: nat)
    returns (ok: bool, more: seq<array2<Cell>>)
    requires HasWidth(parent, width) && p.Valid() && AllFit(chunks, parent, p, width, count)
    requires Start(|chunks|, p.size) < count && n == Min(p.size, count - Start(|chunks|, p.size))
    requires Standing(store, tablename + constraintName, |chunks|, p) && (chunks == [] ==> n == p.size)
    modifies store, store.stored.Values
    ensures fresh(store.stored.Values - old(store.stored.Values))
    ensures tablename + constraintName in store.stored && Standing(store, tablename + constraintName, |chunks| + 1, p)
    ensures ok <==> p.Offset(|chunks|) < |parent|
    ensures AllFit(more, parent, p, width, count)
    ensures |more| == |chunks| + if ok then 1 else 0
  {
    var chunk;
    ok, chunk := SampleJob(store, tablename, constraintName, parent, width, n, |chunks|, p, count);
    more := if ok then chunks + [chunk] else chunks;
  }

  /** A run over all jobs, with whatever sampler is in the store. It goes through
      exactly when no statement starts beyond the parent; the statements then cover the
      run, each filled from its page, and the sampler stands behind the last. */
  method SampleRun(store: SampleStore, tablename: string, constraintName: string, parent: seq<Row>, width: nat,
                   count: nat, bulksize: nat)
    returns (ok: bool, chunks: seq<array2<Cell>>, ghost p: Paging)
    requires bulksize > 0 && HasWidth(parent, width) && store.Valid()
    modifies store, store.stored.Values
    ensures store.Valid() && p == old(PagingFor(store, tablename + constraintName, Min(bulksize, count)))
    ensures ok <==> EveryStartInside(parent, p, count)
    ensures count == 0 ==> chunks == []
    ensures ok && count > 0 ==>
      && p.Valid() && AllFit(chunks, parent, p, width, count) && Start(|chunks|, p.size) >= count
      && tablename + constraintName in store.stored && Standing(store, tablename + constraintName, |chunks|, p)
    ensures !ok ==>
      tablename + constraintName in store.stored && Standing(store, tablename + constraintName, |chunks| + 1, p)
  {
    p := PagingFor(store, tablename + constraintName, Min(bulksize, count));
    if count == 0 {
      return true, [], p;
    }
    var jobs := SplitJobs(count, bulksize);
    chunks := [];
    for j := 0 to |jobs|
      invariant fresh(store.stored.Values - old(store.stored.Values))
      invariant Standing(store, tablename + constraintName, |chunks|, p)
      invariant |chunks| > 0 ==> tablename + constraintName in store.stored
      invariant AllFit(chunks, parent, p, width, count)
      invariant if j < |jobs| then |chunks| == j else Start(|chunks|, p.size) >= count
    {
      JobOfStatement(jobs, count, bulksize, p.size, j);
      if jobs[j] != 0 {
        ok, chunks := SampleNextJob(store, tablename, constraintName, parent, width, jobs[j], chunks, p, count);
        if !ok {
          return;
        }
      }
    }
    AllStartsInside(chunks, parent, p, width, count);
    ok := true;
  }

  lemma SplitIndex(i: nat, size: nat)
    requires size > 0
    ensures i == Start(i / size, size) + i % size && i % size < size
  {
  }

  lemma ChunkOfRow(chunks: seq<array2<Cell>>, parent: seq<Row>, p: Paging, width: nat, count: nat, i: nat, q: nat,
                   r: nat)
    requires p.Valid() && HasWidth(parent, width) && AllFit(chunks, parent, p, width, count)
    requires Start(|chunks|, p.size) >= count && i < count && i == Start(q, p.size) + r && r < p.size
    ensures q < |chunks| && ChunkFits(chunks[q], parent, p, q, width, count) && r < chunks[q].Length0
  {
    if q >= |chunks| {
      StartsGrow(|chunks|, q, p.size);
    }
  }

  /** The formula: child row `i` of such a run gets parent row
      `o + r % min(limit, |parent| - o)` with `o == first + q * limit`, where `q` and
      `r` are the quotient and rest of `i` by the statement size. */
  lemma ChildRowFormula(chunks: seq<array2<Cell>>, parent: seq<Row>, p: Paging, width: nat, count: nat, i: nat, f: nat)
    requires p.Valid() && HasWidth(parent, width) && AllFit(chunks, parent, p, width, count)
    requires Start(|chunks|, p.size) >= count && i < count && f < width
    ensures
      var q, r := i / p.size, i % p.size;
      && q < |chunks| && r < chunks[q].Length0 && f < chunks[q].Length1
      && p.Offset(q) < |parent|
      && chunks[q][r, f] == Sampled(parent[p.Offset(q) + r % Min(p.limit, |parent| - p.Offset(q))][f])
  {
    var q, r := i / p.size, i % p.size;
    SplitIndex(i, p.size);
    ChunkOfRow(chunks, parent, p, width, count, i, q, r);
    WrapIsMod(r, Min(p.limit, |parent| - p.Offset(q)));
  }

  /** So while pages and statements are equally long and the parent lasts, the
      relationship is one to one - also across two runs. */
  lemma OneToOne(chunks: seq<array2<Cell>>, parent: seq<Row>, p: Paging, width: nat, count: nat, i: nat, f: nat)
    requires p.Valid() && HasWidth(parent, width) && AllFit(chunks, parent, p, width, count)
    requires Start(|chunks|, p.size) >= count && i < count && f < width
    requires p.limit == p.size && p.first + count <= |parent|
    ensures
      var q, r := i / p.size, i % p.size;
      && q < |chunks| && r < chunks[q].Length0 && f < chunks[q].Length1
      && chunks[q][r, f] == Sampled(parent[p.first + i][f])
  {
    var q, r := i / p.size, i % p.size;
    SplitIndex(i, p.size);
    ChunkOfRow(chunks, parent, p, width, count, i, q, r);
    assert ParentRow(parent, p.limit, p.Offset(q), r) == parent[p.first + i];
  }
}
