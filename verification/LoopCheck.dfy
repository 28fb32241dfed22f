/** The pass of cmd/run.go over the loaded tables: one that references itself is
    split, any other must not lead into a loop of names. */
module LoopCheck {
  import opened Text
  import opened Fields
  import opened ReferenceGraph
  import opened Schema
  import opened SelfReference

  datatype PlanError = SelfReferenceNotNullable(table: Table) | LoopFound(table: Table)

  ghost predicate Within(tables: seq<Table>, ts: set<Table>) {
    forall i | 0 <= i < |tables| :: tables[i] in ts
  }

  lemma WithinMore(tables: seq<Table>, before: set<Table>, after: set<Table>)
    requires Within(tables, before) && before <= after
    ensures Within(tables, after)
  {
  }

  // The checks on objects are the checks on the graph.

  lemma HasAnyConstraintLoopIsGraphSearch(t: Table, ts: set<Table>)
    requires Wired(ts) && t in ts
    ensures t.HasAnyConstraintLoop(ts) <==> LeadsIntoLoop<Table>(TableNames(ts), TableRefs(ts), t)
  {
    Covered(ts, t);
    var names, refs := TableNames(ts), TableRefs(ts);
    forall i | 0 <= i < |t.constraints|
      ensures t.constraints[i].IsLooping(ts) <==> LoopsFrom<Table>(names, refs, refs[t][i])
    {
      var c := t.constraints[i];
      assert c in t.constraints && c.referencedTable == refs[t][i];
      IsLoopingIsGraphSearch(c, ts);
    }
    if LeadsIntoLoop<Table>(names, refs, t) {
      var i := LoopingReference<Table>(names, refs, t);
      HasAnyVia(t, ts, i);
    }
    if t.HasAnyConstraintLoop(ts) {
      var i :| 0 <= i < |t.constraints| && t.constraints[i].IsLooping(ts);
      LeadsIntoLoopVia<Table>(names, refs, t, i);
    }
  }

  /** The keys that lead back to the table's own name are its references to that name. */
  lemma FirstHomeIsHome(t: Table, ts: set<Table>)
    requires Wired(ts) && t in ts
    ensures
      var h := Home<Table>(TableNames(ts), TableRefs(ts), t);
      && (h < |t.constraints| ==> FirstHome(t, t.constraints, h))
      && (h == |t.constraints| ==> forall c <- t.constraints :: !PointsHome(t, c))
  {
    var names, refs := TableNames(ts), TableRefs(ts);
    forall i | 0 <= i < |t.constraints|
      ensures PointsHome(t, t.constraints[i]) <==> names[refs[t][i]] == names[t]
    {
      var c := t.constraints[i];
      assert c in t.constraints && c.referencedTable == refs[t][i];
    }
  }

  // What becomes of one table.

  ghost predicate KeyNullable(t: Table, i: nat)
    requires i < |t.constraints|
    reads t`constraints, t.constraints`fields
  {
    forall f <- t.constraints[i].fields :: f.isNullable
  }

  /** What the pass asks of a table: if it references itself, that the columns of
      the first key that does can be NULL; otherwise that it leads into no loop. */
  ghost predicate Passes(t: Table, names: map<Table, string>, refs: Refs<Table>)
    requires Closed(refs) && names.Keys == refs.Keys && t in refs
    reads t`constraints, t.constraints`fields
  {
    var h := Home<Table>(names, refs, t);
    if h < |refs[t]| then h < |t.constraints| && KeyNullable(t, h) else !LeadsIntoLoop<Table>(names, refs, t)
  }

  /** The copy lacks the `i`-th key and skips its columns. */
  ghost predicate IsCopy(copy: Table, t: Table, i: nat)
    requires i < |t.constraints|
    reads copy, t
  {
    && copy.schema == t.schema && copy.name == t.name
    && copy.fields == Marked(t.fields, t.constraints[i].columnsName)
    && copy.constraints == t.constraints[..i] + t.constraints[i + 1..]
  }

  /** The tables in memory in the middle of the pass: references of a table to
      its own name may have moved since the beginning. */
  ghost predicate Checking(ts: set<Table>, now: Refs<Table>, names: map<Table, string>, refs: Refs<Table>)
    reads ts, ConstraintsOf(ts)
  {
    && Closed(refs) && names.Keys == refs.Keys
    && GraphNow(ts, now) && NoneShared(ts) && HomesMoved<Table>(names, refs, TableNames(ts), now)
  }

  predicate Alike(t: Table, u: Table) {
    t.schema == u.schema && t.name == u.name
  }

  /** Different tables differ in name or schema. */
  ghost predicate OneEach(ts: set<Table>) {
    forall t, u | t in ts && u in ts && Alike(t, u) :: t == u
  }

  /** References of `t`, the one at `h` among them, now go to its copy; nothing else moved. */
  ghost predicate OneMoved(t: Table, h: nat, copy: Table, now: Refs<Table>, after: Refs<Table>) {
    && after.Keys == now.Keys + {copy} && t in now && h < |after[t]| && after[t][h] == copy
    && forall u {:trigger Moved(u, t, copy, now, after)} | u in now :: Moved(u, t, copy, now, after)
  }

  ghost predicate Moved(u: Table, t: Table, copy: Table, now: Refs<Table>, after: Refs<Table>) {
    && u in now && u in after && |after[u]| == |now[u]|
    && forall i | 0 <= i < |now[u]| :: after[u][i] == now[u][i] || (after[u][i] == copy && Alike(u, t))
  }

  /** A table that was not split references what it did; a split one its own copy
      with the key that led home, and with the others what it did, or its copy. */
  ghost predicate Settled(t: Table, split: bool, names: map<Table, string>, refs: Refs<Table>, now: Refs<Table>)
    requires Closed(refs) && names.Keys == refs.Keys && t in refs
  {
    && t in now && |now[t]| == |refs[t]| && (!split ==> now[t] == refs[t])
    && (split ==>
          var h := Home<Table>(names, refs, t);
          h < |now[t]| && Alike(now[t][h], t) && KeptOrAlike(t, refs[t], now[t]))
  }

  ghost predicate KeptOrAlike(t: Table, before: seq<Table>, after: seq<Table>) {
    |after| == |before| && forall i | 0 <= i < |before| :: after[i] == before[i] || Alike(after[i], t)
  }

  ghost predicate AllSettled(splits: seq<Table>, names: map<Table, string>, refs: Refs<Table>, now: Refs<Table>)
    requires Closed(refs) && names.Keys == refs.Keys
  {
    forall t {:trigger Settled(t, t in splits, names, refs, now)} | t in refs ::
      Settled(t, t in splits, names, refs, now)
  }

  lemma OneMoreSettled(splits: seq<Table>, names: map<Table, string>, refs: Refs<Table>, now: Refs<Table>, t: Table,
                       copy: Table, after: Refs<Table>)
    requires Closed(refs) && names.Keys == refs.Keys && OneEach(refs.Keys) && t in refs && Alike(copy, t)
    requires AllSettled(splits, names, refs, now) && OneMoved(t, Home<Table>(names, refs, t), copy, now, after)
    ensures AllSettled([t] + splits, names, refs, after)
  {
    forall u <- refs
      ensures Settled(u, u in [t] + splits, names, refs, after)
    {
      assert Settled(u, u in splits, names, refs, now) && Moved(u, t, copy, now, after);
      if u != t {
        assert after[u] == now[u];
      }
    }
  }

  lemma NoneSettled(names: map<Table, string>, refs: Refs<Table>)
    requires Closed(refs) && names.Keys == refs.Keys
    ensures AllSettled([], names, refs, refs)
  {
  }

  /** Every key points where `refs` says, but for one that now points at a copy
      of its own table: the graph differs in references to the own name only. */
  ghost predicate Redirected(ts: set<Table>, refs: Refs<Table>, home: Constraint, copy: Table)
    reads ts, ConstraintsOf(ts)
  {
    refs.Keys == ts && forall u <- ts :: |refs[u]| == |u.constraints| && forall i | 0 <= i < |u.constraints| ::
      (Covered(ts, u); u.constraints[i].referencedTable == if u.constraints[i] == home then copy else refs[u][i])
  }

  lemma RedirectedIsWired(ts: set<Table>, refs: Refs<Table>, t: Table, h: nat, copy: Table)
    requires Closed(refs) && t in ts && copy !in ts && h < |t.constraints| && IsCopy(copy, t, h)
    requires Redirected(ts, refs, t.constraints[h], copy)
    ensures Wired(ts + {copy}) && ConstraintsOf(ts + {copy}) <= ConstraintsOf(ts)
  {
    var all := ts + {copy};
    forall u, i | u in ts && 0 <= i < |u.constraints|
      ensures u.constraints[i].referencedTable != null && u.constraints[i].referencedTable in all
    {
    }
    assert forall c <- copy.constraints :: c in t.constraints;
  }

  lemma KeysPointAsReferred(ts: set<Table>, refs: Refs<Table>)
    requires Wired(ts) && refs == TableRefs(ts)
    ensures forall u <- ts :: |refs[u]| == |u.constraints|
    ensures forall u, i | u in ts && 0 <= i < |u.constraints| :: refs[u][i] == u.constraints[i].referencedTable
  {
  }

  lemma CopyIsNotShared(ts: set<Table>, t: Table, h: nat, copy: Table)
    requires NoneShared(ts) && t in ts && h < |t.constraints| && IsCopy(copy, t, h)
    ensures NoneShared(ts + {copy})
  {
    assert forall c <- copy.constraints :: c in t.constraints;
  }

  lemma SharedKeyIsOwnKey(ts: set<Table>, u: Table, i: nat, t: Table, h: nat)
    requires NoneShared(ts) && u in ts && t in ts && i < |u.constraints| && h < |t.constraints|
    requires u.constraints[i] == t.constraints[h]
    ensures u.name == t.name
  {
    assert u.constraints[i] in u.constraints && t.constraints[h] in t.constraints;
  }

  /** All references to the key's old target were references to the own name. */
  ghost predicate PointedHome(ts: set<Table>, refs: Refs<Table>, home: Constraint, name: string)
    reads ts
  {
    forall u, i | u in ts && u in refs && 0 <= i < |u.constraints| && i < |refs[u]| && u.constraints[i] == home ::
      refs[u][i].name == name
  }

  lemma RedirectedMovesHomes(ts: set<Table>, names: map<Table, string>, refs: Refs<Table>, t: Table, h: nat,
                             copy: Table)
    requires Closed(refs) && names == TableNames(ts) && t in ts && copy !in ts && h < |t.constraints|
    requires copy.name == t.name
    requires NoneShared(ts) && Redirected(ts, refs, t.constraints[h], copy) && Wired(ts + {copy})
    requires PointedHome(ts, refs, t.constraints[h], t.name)
    ensures HomesMoved<Table>(names, refs, TableNames(ts + {copy}), TableRefs(ts + {copy}))
  {
    var more, after := TableNames(ts + {copy}), TableRefs(ts + {copy});
    KeysPointAsReferred(ts + {copy}, after);
    forall u, i | u in refs && 0 <= i < |refs[u]|
      ensures KeptOrHome<Table>(names, refs, more, after, u, i)
    {
      if u.constraints[i] == t.constraints[h] {
        SharedKeyIsOwnKey(ts, u, i, t, h);
        assert refs[u][i].name == t.name;
      }
    }
  }

  /** The first reference to the own name: which key that is, and where it points. */
  lemma HomeKey(t: Table, ts: set<Table>, names: map<Table, string>, refs: Refs<Table>) returns (h: nat)
    requires GraphNow(ts, refs) && names == TableNames(ts) && t in ts && HasHome<Table>(names, refs, t)
    ensures h == Home<Table>(names, refs, t) < |t.constraints| && FirstHome(t, t.constraints, h)
    ensures PointedHome(ts, refs, t.constraints[h], t.name)
  {
    h := Home<Table>(names, refs, t);
    GraphNowIsRefs(ts, refs);
    KeysPointAsReferred(ts, refs);
    FirstHomeIsHome(t, ts);
  }

  /** The graph read off the targets of the keys. */
  ghost predicate Reads(ts: set<Table>, refs: Refs<Table>, target: map<Constraint, Table>)
    reads ts`constraints
  {
    refs.Keys == ts && (forall u <- ts :: |refs[u]| == |u.constraints|) &&
    forall u, i | u in ts && 0 <= i < |u.constraints| ::
      u.constraints[i] in target && refs[u][i] == target[u.constraints[i]]
  }

  ghost predicate Points(target: map<Constraint, Table>)
    reads target.Keys`referencedTable
  {
    forall c <- target :: c.referencedTable == target[c]
  }

  lemma TargetsNow(ts: set<Table>, refs: Refs<Table>) returns (target: map<Constraint, Table>)
    requires GraphNow(ts, refs)
    ensures Reads(ts, refs, target) && Points(target)
  {
    GraphNowIsRefs(ts, refs);
    target := map c | c in ConstraintsOf(ts) && c.referencedTable != null :: c.referencedTable;
    KeysPointAsReferred(ts, refs);
    forall u, i | u in ts && 0 <= i < |u.constraints|
      ensures u.constraints[i] in target && refs[u][i] == target[u.constraints[i]]
    {
      Covered(ts, u);
      assert u.constraints[i] in u.constraints;
    }
  }

  lemma ReadIsRefs(ts: set<Table>, refs: Refs<Table>, target: map<Constraint, Table>)
    requires Reads(ts, refs, target) && Points(target) && Closed(refs)
    ensures GraphNow(ts, refs)
  {
  }

  lemma ReadIsRedirected(ts: set<Table>, refs: Refs<Table>, target: map<Constraint, Table>, home: Constraint,
                         copy: Table)
    requires Reads(ts, refs, target) && home in target && Points(target[home := copy])
    ensures Redirected(ts, refs, home, copy)
  {
  }

  /** The call, with the targets of all keys before and after it. */
  method SplitAtHome(t: Table, ghost h: nat, ghost target: map<Constraint, Table>) returns (r: SplitOutcome)
    requires Points(target) && (forall c <- t.constraints :: c in target) && FirstHome(t, t.constraints, h)
    modifies t.constraints`referencedTable
    ensures !r.NoSelfReference? && (r.Split? <==> old(KeyNullable(t, h)))
    ensures r.Split? ==> fresh(r.copy) && IsCopy(r.copy, t, h)
    ensures Points(if r.Split? then target[t.constraints[h] := r.copy] else target)
  {
    ghost var cidx;
    assert t.constraints[h] in t.constraints;
    r, cidx := IdentifyAndResolveSelfReferencingConstraintLoop(t);
    assert cidx == h;
  }

  lemma RedirectedMovesOne(ts: set<Table>, refs: Refs<Table>, t: Table, h: nat, copy: Table, after: Refs<Table>)
    requires t in ts && h < |t.constraints| && NoneShared(ts) && Redirected(ts, refs, t.constraints[h], copy)
    requires Wired(ts + {copy}) && after == TableRefs(ts + {copy})
    ensures OneMoved(t, h, copy, refs, after)
  {
    KeysPointAsReferred(ts + {copy}, after);
    forall u <- ts
      ensures Moved(u, t, copy, refs, after)
    {
      forall i | 0 <= i < |refs[u]|
        ensures after[u][i] == refs[u][i] || (after[u][i] == copy && Alike(u, t))
      {
        assert u.constraints[i] in u.constraints && t.constraints[h] in t.constraints;
      }
    }
  }

  lemma CopyInGraph(ts: set<Table>, names: map<Table, string>, refs: Refs<Table>, target: map<Constraint, Table>,
                    t: Table, h: nat, copy: Table)
    returns (after: Refs<Table>)
    requires Closed(refs) && Reads(ts, refs, target) && names == TableNames(ts) && NoneShared(ts)
    requires t in ts && copy !in ts && h < |t.constraints| && IsCopy(copy, t, h)
    requires t.constraints[h] in target && Points(target[t.constraints[h] := copy])
    requires PointedHome(ts, refs, t.constraints[h], t.name)
    ensures GraphNow(ts + {copy}, after) && NoneShared(ts + {copy}) && ConstraintsOf(ts + {copy}) <= ConstraintsOf(ts)
    ensures HomesMoved<Table>(names, refs, TableNames(ts + {copy}), after) && OneMoved(t, h, copy, refs, after)
  {
    ReadIsRedirected(ts, refs, target, t.constraints[h], copy);
    RedirectedIsWired(ts, refs, t, h, copy);
    CopyIsNotShared(ts, t, h, copy);
    RedirectedMovesHomes(ts, names, refs, t, h, copy);
    after := TableRefs(ts + {copy});
    RefsAreGraphNow(ts + {copy}, after);
    RedirectedMovesOne(ts, refs, t, h, copy, after);
  }

  /** A self-referencing table and its copy. */
  method SplitTable(t: Table, ghost ts: set<Table>, ghost names: map<Table, string>, ghost refs: Refs<Table>)
    returns (r: Result<Table, PlanError>, ghost all: set<Table>, ghost after: Refs<Table>)
    requires GraphNow(ts, refs) && NoneShared(ts) && names == TableNames(ts) && t in ts
    requires HasHome<Table>(names, refs, t)
    modifies t.constraints`referencedTable
    ensures Home<Table>(names, refs, t) < |t.constraints|
    ensures r.Ok? <==> old(KeyNullable(t, Home<Table>(names, refs, t)))
    ensures r.Ok? ==> fresh(r.value) && all == ts + {r.value} && IsCopy(r.value, t, Home<Table>(names, refs, t))
    ensures r.Ok? ==> OneMoved(t, Home<Table>(names, refs, t), r.value, refs, after)
    ensures r.Err? ==> all == ts && r.error == SelfReferenceNotNullable(t)
    ensures GraphNow(all, after) && NoneShared(all) && HomesMoved<Table>(names, refs, TableNames(all), after)
    ensures ConstraintsOf(all) <= old(ConstraintsOf(ts))
  {
    all, after := ts, refs;
    ghost var h := HomeKey(t, ts, names, refs);
    Covered(ts, t);
    NoHomesMoved<Table>(names, refs);
    ghost var keys := ConstraintsOf(ts);
    ghost var target := TargetsNow(ts, refs);
    var outcome := SplitAtHome(t, h, target);
    assert ConstraintsOf(ts) == keys;
    match outcome
    case ColumnNotNullable(_, _) =>
      ReadIsRefs(ts, refs, target);
      r := Err(SelfReferenceNotNullable(t));
    case Split(copy) =>
      after := CopyInGraph(ts, names, refs, target, t, h, copy);
      all := ts + {copy};
      r := Ok(copy);
  }

  predicate ReferencesItself(t: Table)
    reads t, t.constraints
  {
    exists i | 0 <= i < |t.constraints| :: PointsHome(t, t.constraints[i])
  }

  lemma ReferencesItselfIffHome(t: Table, ts: set<Table>)
    requires Wired(ts) && t in ts
    ensures ReferencesItself(t) <==> HasHome<Table>(TableNames(ts), TableRefs(ts), t)
  {
    FirstHomeIsHome(t, ts);
    var h := Home<Table>(TableNames(ts), TableRefs(ts), t);
    if h < |t.constraints| {
      assert PointsHome(t, t.constraints[h]);
    }
  }

  lemma CheckingOld(t: Table, ts: set<Table>, now: Refs<Table>, names: map<Table, string>, refs: Refs<Table>)
    requires Checking(ts, now, names, refs) && t in refs
    ensures Wired(ts) && TableRefs(ts) == now && t in ts && |t.constraints| == |refs[t]| && t.name == names[t]
    ensures Home<Table>(TableNames(ts), now, t) == Home<Table>(names, refs, t)
    ensures ReferencesItself(t) <==> HasHome<Table>(names, refs, t)
    ensures !HasHome<Table>(names, refs, t) ==> (t.HasAnyConstraintLoop(ts) <==> LeadsIntoLoop<Table>(names, refs, t))
  {
    GraphNowIsRefs(ts, now);
    MovingHomesKeepsVerdict<Table>(names, refs, TableNames(ts), now, t);
    HasAnyConstraintLoopIsGraphSearch(t, ts);
    ReferencesItselfIffHome(t, ts);
  }

  /** The two questions, asked in the middle of the pass, get the answers of the beginning. */
  method Judge(t: Table, ghost ts: set<Table>, ghost now: Refs<Table>, ghost names: map<Table, string>,
               ghost refs: Refs<Table>)
    returns (home: bool, looping: bool)
    requires Checking(ts, now, names, refs) && t in refs
    ensures t in now && |t.constraints| == |refs[t]| && (HasHome<Table>(TableNames(ts), now, t) <==> home)
    ensures Home<Table>(TableNames(ts), now, t) == Home<Table>(names, refs, t)
    ensures home <==> HasHome<Table>(names, refs, t)
    ensures looping <==> !home && LeadsIntoLoop<Table>(names, refs, t)
  {
    CheckingOld(t, ts, now, names, refs);
    home := ReferencesItself(t);
    looping := !home && t.HasAnyConstraintLoop(ts);
  }

  /** Splitting in the middle of the pass. */
  method SplitLater(t: Table, ghost ts: set<Table>, ghost now: Refs<Table>, ghost names: map<Table, string>,
                    ghost refs: Refs<Table>)
    returns (r: Result<Table, PlanError>, ghost all: set<Table>, ghost after: Refs<Table>)
    requires Checking(ts, now, names, refs) && t in refs && t in now && HasHome<Table>(TableNames(ts), now, t)
    requires Home<Table>(TableNames(ts), now, t) == Home<Table>(names, refs, t) < |t.constraints|
    modifies t.constraints`referencedTable
    ensures Checking(all, after, names, refs) && ts <= all && ConstraintsOf(all) <= old(ConstraintsOf(ts))
    ensures r.Ok? <==> old(KeyNullable(t, Home<Table>(names, refs, t)))
    ensures r.Ok? ==> fresh(r.value) && all == ts + {r.value} && IsCopy(r.value, t, Home<Table>(names, refs, t))
    ensures r.Ok? ==> OneMoved(t, Home<Table>(names, refs, t), r.value, now, after)
    ensures r.Err? ==> r.error.table == t
  {
    r, all, after := SplitTable(t, ts, TableNames(ts), now);
    HomesMovedTwice<Table>(names, refs, TableNames(ts), now, TableNames(all), after);
  }

  /** One turn of the pass, whatever the turns before it have moved. */
  method CheckTable(t: Table, ghost ts: set<Table>, ghost now: Refs<Table>, ghost names: map<Table, string>,
                    ghost refs: Refs<Table>)
    returns (r: Result<Option<Table>, PlanError>, ghost all: set<Table>, ghost after: Refs<Table>)
    requires Checking(ts, now, names, refs) && t in refs
    modifies t.constraints`referencedTable
    ensures Checking(all, after, names, refs) && ts <= all && ConstraintsOf(all) <= old(ConstraintsOf(ts))
    ensures r.Ok? <==> old(Passes(t, names, refs))
    ensures r.Ok? ==> if HasHome<Table>(names, refs, t) then r.value.Some? else r.value.None?
    ensures r.Ok? && r.value.None? ==> all == ts && after == now
    ensures r.Ok? && r.value.Some? ==>
      && fresh(r.value.value) && r.value.value in all
      && OneMoved(t, Home<Table>(names, refs, t), r.value.value, now, after)
      && Home<Table>(names, refs, t) < |t.constraints| && IsCopy(r.value.value, t, Home<Table>(names, refs, t))
    ensures r.Err? ==> r.error.table == t
  {
    all, after := ts, now;
    var home, looping := Judge(t, ts, now, names, refs);
    if home {
      var split;
      split, all, after := SplitLater(t, ts, now, names, refs);
      r := if split.Ok? then Ok(Some(split.value)) else Err(split.error);
    } else {
      r := if looping then Err(LoopFound(t)) else Ok(None);
    }
  }

  // The whole pass.

  /** The tables that get a copy, in the order in which their copies end up. */
  ghost function Splits(tables: seq<Table>, names: map<Table, string>, refs: Refs<Table>): (splits: seq<Table>)
    requires Closed(refs) && names.Keys == refs.Keys && forall t <- tables :: t in refs
    ensures forall t <- splits :: t in tables
  {
    if tables == [] then []
    else
      var last := tables[|tables| - 1];
      (if HasHome<Table>(names, refs, last) then [last] else []) + Splits(tables[..|tables| - 1], names, refs)
  }

  ghost predicate CopyFits(copy: Table, t: Table, names: map<Table, string>, refs: Refs<Table>)
    requires Closed(refs) && names.Keys == refs.Keys
    reads copy, t
  {
    && t in refs && Home<Table>(names, refs, t) < |t.constraints| && IsCopy(copy, t, Home<Table>(names, refs, t))
  }

  ghost predicate CopiesFit(copies: seq<Table>, splits: seq<Table>, names: map<Table, string>, refs: Refs<Table>)
    requires Closed(refs) && names.Keys == refs.Keys
    reads copies, splits
  {
    |copies| == |splits| && forall k | 0 <= k < |copies| :: CopyFits(copies[k], splits[k], names, refs)
  }

  ghost predicate AllPass(tables: seq<Table>, names: map<Table, string>, refs: Refs<Table>)
    requires Closed(refs) && names.Keys == refs.Keys && forall t <- tables :: t in refs
    reads Elements(tables)`constraints, ConstraintsOf(Elements(tables))`fields
  {
    forall i | 0 <= i < |tables| :: (Covered(Elements(tables), tables[i]); Passes(tables[i], names, refs))
  }

  lemma SplitsSnoc(tables: seq<Table>, t: Table, names: map<Table, string>, refs: Refs<Table>)
    requires Closed(refs) && names.Keys == refs.Keys && t in refs && forall x <- tables :: x in refs
    ensures Splits(tables + [t], names, refs)
         == if HasHome<Table>(names, refs, t) then [t] + Splits(tables, names, refs) else Splits(tables, names, refs)
  {
    assert (tables + [t])[..|tables|] == tables;
    assert [] + Splits(tables, names, refs) == Splits(tables, names, refs);
  }

  lemma CopiesOneMore(copy: Table, t: Table, copies: seq<Table>, splits: seq<Table>, names: map<Table, string>,
                      refs: Refs<Table>)
    requires Closed(refs) && names.Keys == refs.Keys
    requires CopyFits(copy, t, names, refs) && CopiesFit(copies, splits, names, refs)
    ensures CopiesFit([copy] + copies, [t] + splits, names, refs)
  {
  }

  ghost predicate VerdictIs(t: Table, verdict: bool, names: map<Table, string>, refs: Refs<Table>)
    requires Closed(refs) && names.Keys == refs.Keys && t in refs
    reads t`constraints, t.constraints`fields
  {
    verdict == Passes(t, names, refs)
  }

  ghost predicate VerdictsAre(tables: seq<Table>, verdicts: seq<bool>, names: map<Table, string>, refs: Refs<Table>)
    requires Closed(refs) && names.Keys == refs.Keys && forall t <- tables :: t in refs
    reads Elements(tables)`constraints, ConstraintsOf(Elements(tables))`fields
  {
    |verdicts| == |tables| && forall i {:trigger VerdictIs(tables[i], verdicts[i], names, refs)} | 0 <= i < |tables| ::
      (Covered(Elements(tables), tables[i]); VerdictIs(tables[i], verdicts[i], names, refs))
  }

  lemma {:induction false} Verdicts(tables: seq<Table>, names: map<Table, string>, refs: Refs<Table>)
    returns (verdicts: seq<bool>)
    requires Closed(refs) && names.Keys == refs.Keys && forall t <- tables :: t in refs
    ensures VerdictsAre(tables, verdicts, names, refs)
  {
    verdicts := [];
    if tables != [] {
      var last := |tables| - 1;
      assert forall t <- tables[..last] :: t in tables;
      var others := Verdicts(tables[..last], names, refs);
      verdicts := others + [Passes(tables[last], names, refs)];
      forall i | 0 <= i < |tables|
        ensures VerdictIs(tables[i], verdicts[i], names, refs)
      {
        if i < last {
          assert VerdictIs(tables[..last][i], others[i], names, refs);
        }
      }
    }
  }

  lemma AllPassIff(tables: seq<Table>, verdicts: seq<bool>, names: map<Table, string>, refs: Refs<Table>)
    requires Closed(refs) && names.Keys == refs.Keys && forall t <- tables :: t in refs
    requires VerdictsAre(tables, verdicts, names, refs)
    ensures AllPass(tables, names, refs) <==> forall i | 0 <= i < |tables| :: verdicts[i]
    ensures forall i | 0 <= i < |tables| :: verdicts[i] == Passes(tables[i], names, refs)
  {
    forall i | 0 <= i < |tables|
      ensures verdicts[i] == Passes(tables[i], names, refs)
    {
      assert VerdictIs(tables[i], verdicts[i], names, refs);
    }
  }

  ghost predicate Checked(tables: seq<Table>, i: nat, all: set<Table>, now: Refs<Table>, copies: seq<Table>,
                          names: map<Table, string>, refs: Refs<Table>)
    reads all, ConstraintsOf(all), copies, Elements(tables)
  {
    && Checking(all, now, names, refs) && i <= |tables| && Within(tables, refs.Keys) && Within(copies, all)
    && CopiesFit(copies, Splits(tables[..i], names, refs), names, refs)
  }

  lemma CheckedOneMore(tables: seq<Table>, i: nat, all: set<Table>, now: Refs<Table>, copies: seq<Table>,
                       copy: Option<Table>, names: map<Table, string>, refs: Refs<Table>)
    requires Checked(tables, i, all, now, copies, names, refs) && i < |tables|
    requires copy.Some? <==> HasHome<Table>(names, refs, tables[i])
    requires copy.Some? ==> copy.value in all && CopyFits(copy.value, tables[i], names, refs)
    ensures Checked(tables, i + 1, all, now, if copy.Some? then [copy.value] + copies else copies, names, refs)
  {
    TakeOneMore(tables, i);
    SplitsSnoc(tables[..i], tables[i], names, refs);
    var splits := Splits(tables[..i], names, refs);
    assert Splits(tables[..i + 1], names, refs) == if copy.Some? then [tables[i]] + splits else splits;
    if copy.Some? {
      CopiesOneMore(copy.value, tables[i], copies, Splits(tables[..i], names, refs), names, refs);
    }
  }

  ghost predicate FromList(t: Table, copies: seq<Table>, refs: Refs<Table>) {
    t in refs || t in copies
  }

  /** Which tables there are so far, and where their references went. */
  ghost predicate Traced(tables: seq<Table>, i: nat, now: Refs<Table>, copies: seq<Table>,
                         names: map<Table, string>, refs: Refs<Table>)
    requires Closed(refs) && names.Keys == refs.Keys && i <= |tables| && Within(tables, refs.Keys)
  {
    && (forall t {:trigger FromList(t, copies, refs)} | t in now :: FromList(t, copies, refs))
    && (OneEach(refs.Keys) ==> AllSettled(Splits(tables[..i], names, refs), names, refs, now))
  }

  lemma TracedOneMore(tables: seq<Table>, i: nat, now: Refs<Table>, copies: seq<Table>,
                      copy: Option<Table>, after: Refs<Table>, names: map<Table, string>,
                      refs: Refs<Table>)
    requires Closed(refs) && names.Keys == refs.Keys && i < |tables| && Within(tables, refs.Keys)
    requires Traced(tables, i, now, copies, names, refs)
    requires copy.Some? <==> HasHome<Table>(names, refs, tables[i])
    requires copy.Some? ==>
      && Alike(copy.value, tables[i])
      && OneMoved(tables[i], Home<Table>(names, refs, tables[i]), copy.value, now, after)
    requires copy.None? ==> after == now
    ensures
      Traced(tables, i + 1, after, if copy.Some? then [copy.value] + copies else copies, names, refs)
  {
    TakeOneMore(tables, i);
    SplitsSnoc(tables[..i], tables[i], names, refs);
    forall t <- after
      ensures FromList(t, if copy.Some? then [copy.value] + copies else copies, refs)
    {
      assert t in now ==> FromList(t, copies, refs);
    }
    if copy.Some? && OneEach(refs.Keys) {
      OneMoreSettled(Splits(tables[..i], names, refs), names, refs, now, tables[i], copy.value, after);
    }
  }

  lemma TracedAll(tables: seq<Table>, all: set<Table>, now: Refs<Table>, copies: seq<Table>,
                  names: map<Table, string>, refs: Refs<Table>)
    requires Closed(refs) && names.Keys == refs.Keys && Within(tables, refs.Keys) && Within(copies, all)
    requires Traced(tables, |tables|, now, copies, names, refs) && refs.Keys <= all == now.Keys
    ensures all == refs.Keys + Elements(copies)
    ensures OneEach(refs.Keys) ==> AllSettled(Splits(tables, names, refs), names, refs, now)
  {
    TakeAll(tables);
    forall t <- all
      ensures t in refs || t in copies
    {
      assert FromList(t, copies, refs);
    }
  }

  /** One turn, with the copies so far. */
  method CheckNext(tables: seq<Table>, i: nat, ghost ts: set<Table>, ghost now: Refs<Table>,
                   ghost names: map<Table, string>, ghost refs: Refs<Table>, ghost copies: seq<Table>,
                   ghost verdict: bool)
    returns (r: Result<Option<Table>, PlanError>, ghost all: set<Table>, ghost after: Refs<Table>)
    requires Checked(tables, i, ts, now, copies, names, refs) && i < |tables|
    requires VerdictIs(tables[i], verdict, names, refs) && Traced(tables, i, now, copies, names, refs)
    modifies tables[i].constraints`referencedTable
    ensures ts <= all && ConstraintsOf(all) <= old(ConstraintsOf(ts)) && Checking(all, after, names, refs)
    ensures r.Ok? <==> verdict
    ensures r.Err? ==> r.error.table == tables[i]
    ensures r.Ok? ==> if r.value.Some? then fresh(r.value.value) else all == ts && after == now
    ensures r.Ok? ==>
      var more := if r.value.Some? then [r.value.value] + copies else copies;
      Checked(tables, i + 1, all, after, more, names, refs) && Traced(tables, i + 1, after, more, names, refs)
  {
    ghost var splits := Splits(tables[..i], names, refs);
    ghost var fit := CopiesFit(copies, splits, names, refs);
    r, all, after := CheckTable(tables[i], ts, now, names, refs);
    assert fit == CopiesFit(copies, splits, names, refs);
    WithinMore(copies, ts, all);
    if r.Ok? {
      CheckedOneMore(tables, i, all, after, copies, r.value, names, refs);
      TracedOneMore(tables, i, now, copies, r.value, after, names, refs);
    }
  }

  lemma NothingChecked(tables: seq<Table>, ts: set<Table>, names: map<Table, string>, refs: Refs<Table>)
    requires GraphNow(ts, refs) && NoneShared(ts) && Within(tables, ts) && names == TableNames(ts)
    ensures Checked(tables, 0, ts, refs, [], names, refs) && Traced(tables, 0, refs, [], names, refs)
  {
    NoHomesMoved<Table>(names, refs);
    NoneSettled(names, refs);
  }

  ghost predicate AllTrue(verdicts: seq<bool>, n: nat)
    requires n <= |verdicts|
  {
    forall k | 0 <= k < n :: verdicts[k]
  }

  lemma OneMoreTrue(verdicts: seq<bool>, n: nat)
    requires n < |verdicts| && AllTrue(verdicts, n) && verdicts[n]
    ensures AllTrue(verdicts, n + 1)
  {
  }

  ghost predicate NoneIn(copies: seq<Table>, earlier: set<Table>) {
    forall k | 0 <= k < |copies| :: copies[k] !in earlier
  }

  lemma OneMoreNotIn(copy: Table, copies: seq<Table>, earlier: set<Table>)
    requires copy !in earlier && NoneIn(copies, earlier)
    ensures NoneIn([copy] + copies, earlier)
  {
  }

  /** The loop, given what it will find. */
  method CheckAll(tables: seq<Table>, ghost ts: set<Table>, ghost names: map<Table, string>, ghost refs: Refs<Table>,
                  ghost verdicts: seq<bool>, ghost earlier: set<Table>)
    returns (r: Result<seq<Table>, PlanError>, ghost all: set<Table>, ghost now: Refs<Table>, ghost copies: seq<Table>,
             ghost bad: nat)
    requires Checked(tables, 0, ts, refs, [], names, refs) && refs.Keys == ts
    requires Traced(tables, 0, refs, [], names, refs)
    requires VerdictsAre(tables, verdicts, names, refs)
    modifies ConstraintsOf(ts)`referencedTable
    ensures r.Ok? ==> AllTrue(verdicts, |tables|) && r.value == copies + tables
    ensures r.Ok? ==> Checked(tables, |tables|, all, now, copies, names, refs)
    ensures r.Ok? ==> Traced(tables, |tables|, now, copies, names, refs)
    ensures r.Ok? ==> NoneIn(copies, earlier) && (copies == [] ==> all == ts && now == refs)
    ensures r.Err? ==> bad < |tables| && !verdicts[bad] && r.error.table == tables[bad]
    ensures ts <= all && Checking(all, now, names, refs) && ConstraintsOf(all) <= old(ConstraintsOf(ts))
  {
    all, now, copies, bad := ts, refs, [], 0;
    ghost var keys := ConstraintsOf(ts);
    var result := tables;
    for i := 0 to |tables|
      invariant ts <= all && ConstraintsOf(all) <= keys && Checked(tables, i, all, now, copies, names, refs)
      invariant AllTrue(verdicts, i) && NoneIn(copies, earlier) && (copies == [] ==> all == ts && now == refs)
      invariant result == copies + tables && Traced(tables, i, now, copies, names, refs)
    {
      assert old(Covered(ts, tables[i]); true) && tables[i].constraints == old(tables[i].constraints);
      assert VerdictIs(tables[i], verdicts[i], names, refs) == old(VerdictIs(tables[i], verdicts[i], names, refs));
      var checked;
      checked, all, now := CheckNext(tables, i, all, now, names, refs, copies, verdicts[i]);
      if checked.Err? {
        return Err(checked.error), all, now, copies, i;
      }
      OneMoreTrue(verdicts, i);
      if checked.value.Some? {
        OneMoreNotIn(checked.value.value, copies, earlier);
        Regroup([checked.value.value], copies, tables);
        copies, result := [checked.value.value] + copies, [checked.value.value] + result;
      }
    }
    r := Ok(result);
  }

  /** The pass over the loaded tables: a self-referencing one gets a copy at the
      front of the list, any other must not lead into a loop of names. It succeeds exactly
      if every listed table, judged by the graph there was before, passes; the
      splits done on the way change nobody's verdict. */
  method CheckLoops(tables: seq<Table>, ghost ts: set<Table>, ghost names: map<Table, string>, ghost refs: Refs<Table>)
    returns (r: Result<seq<Table>, PlanError>, ghost all: set<Table>, ghost now: Refs<Table>, ghost copies: seq<Table>)
    requires GraphNow(ts, refs) && NoneShared(ts) && Within(tables, ts) && names == TableNames(ts)
    modifies ConstraintsOf(ts)`referencedTable
    ensures r.Ok? <==> old(AllPass(tables, names, refs))
    ensures r.Err? ==> r.error.table in tables && old(!Passes(r.error.table, names, refs))
    ensures r.Ok? ==>
      && r.value == copies + tables && Within(copies, all)
      && CopiesFit(copies, Splits(tables, names, refs), names, refs)
    ensures r.Ok? ==> fresh(copies) && (copies == [] ==> all == ts && now == refs) && all == ts + Elements(copies)
    ensures r.Ok? && OneEach(ts) ==> AllSettled(Splits(tables, names, refs), names, refs, now)
    ensures ts <= all && Checking(all, now, names, refs) && ConstraintsOf(all) <= old(ConstraintsOf(ts))
  {
    ghost var verdicts: seq<bool> := Verdicts(tables, names, refs);
    AllPassIff(tables, verdicts, names, refs);
    NothingChecked(tables, ts, names, refs);
    ghost var bad;
    ghost var earlier := set t: Table | Present(t);
    r, all, now, copies, bad := CheckAll(tables, ts, names, refs, verdicts, earlier);
    TakeAll(tables);
    if r.Ok? {
      TracedAll(tables, all, now, copies, names, refs);
    }
    forall k | r.Ok? && 0 <= k < |copies|
      ensures fresh(copies[k])
    {
      assert Present(copies[k]);
    }
  }
}
