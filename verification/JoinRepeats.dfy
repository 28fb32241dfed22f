/** Joins that say again what a key already says (db/constraint.go
    shouldSkipVirtualFK): written again, or the other way round, they change nothing,
    unless the guard has turned their key around. */
module JoinRepeats {
  import opened Text
  import opened Fields
  import opened ReferenceGraph
  import opened Loader
  import opened VirtualJoins
  import opened JoinSteps
  import opened JoinCycles

  /** A join written as key `k` of a listed table does nothing, whichever side comes first. */
  lemma KeyIsNotRepeated(catalog: Catalog, s: JoinState, i: nat, k: nat, join: VirtualJoin)
    requires i < |s.run| && k < |s.run[i].links|
    requires SameName(join.right.table, s.run[i].table.table) && join.right.columns == s.run[i].links[k].columns
    requires SameName(join.left.table, s.run[i].links[k].parent)
    requires join.left.columns == s.run[i].links[k].parentColumns
    ensures JudgeJoin(catalog, s, join) == AlreadyCovered
    ensures JudgeJoin(catalog, s, VirtualJoin(join.right, join.left)) == AlreadyCovered
  {
    KeyCoversItself(s.run, i, k, join);
  }

  lemma OnlyNewKeyCovers(s: JoinState, v: Verdict, join: VirtualJoin)
    requires s.Valid() && v.Attached? && v.child < |s.run| && !CoveredBy(s.run, join)
    ensures CoveredBy(Turned(s, v).run, join) <==> Says(s.run[v.child].table.table, v.link, join)
  {
    var after := Turned(s, v).run;
    assert after[v.child].links[|s.run[v.child].links|] == v.link;
    if i, k :| 0 <= i < |after| && 0 <= k < |after[i].links| && Says(after[i].table.table, after[i].links[k], join) {
      assert k < |s.run[i].links| ==> Says(s.run[i].table.table, s.run[i].links[k], join);
    }
  }

  lemma SimilarToItself(names: seq<string>)
    ensures IsSliceSimilar(names, names)
  {
    SimilarIff(names, names);
    OccurInThemselves(names);
  }

  /** A key made as the join is written says what the join says. */
  lemma AsWrittenSays(table: string, join: VirtualJoin)
    requires SameName(join.right.table, table)
    ensures Says(table, Link(join.left.table, join.right.columns, join.left.columns), join)
  {
    SimilarToItself(join.right.columns);
    SimilarToItself(join.left.columns);
  }

  /** A key turned round, but on the same table, says it only if both sides have the same name. */
  lemma TurnedRoundSays(table: string, join: VirtualJoin)
    requires SameName(join.right.table, table)
    ensures Says(table, Link(join.right.table, join.left.columns, join.right.columns), join)
       <==> SameName(join.left.table, join.right.table)
  {
    SimilarToItself(join.right.columns);
    SimilarToItself(join.left.columns);
  }

  /** After a join has made a key, the same join again is covered exactly if the guard
      did not fire: a key that the guard turned hangs on the table it leads to. */
  lemma RepeatCoveredIff(catalog: Catalog, s: JoinState, join: VirtualJoin)
    requires s.Valid() && JudgeJoin(catalog, s, join).Attached?
    ensures
      var v := JudgeJoin(catalog, s, join);
      CoveredBy(Turned(s, v).run, join) <==>
        !GuardFires(s.graph, s.run[v.child].table.schema, join) || SameName(join.left.table, join.right.table)
  {
    var v := JudgeJoin(catalog, s, join);
    OnlyNewKeyCovers(s, v, join);
    AsWrittenSays(s.run[v.child].table.table, join);
    TurnedRoundSays(s.run[v.child].table.table, join);
  }

  // Whole lists.

  /** The join does nothing: a key says it, or its child is not listed. */
  predicate Settled(run: seq<Entry>, join: VirtualJoin) {
    CoveredBy(run, join) || EntryNamed(run, join.right.table) == |run|
  }

  lemma SettledStays(before: seq<Entry>, after: seq<Entry>, join: VirtualJoin)
    requires Longer(before, after) && Settled(before, join)
    ensures Settled(after, join)
  {
    SamePlaces(before, after, join.right.table);
    if i, k :| 0 <= i < |before| && 0 <= k < |before[i].links|
               && Says(before[i].table.table, before[i].links[k], join) {
      assert Says(after[i].table.table, after[i].links[k], join);
    }
  }

  lemma {:induction false} SettledDoNothing(catalog: Catalog, s: JoinState, joins: seq<VirtualJoin>)
    requires s.Valid() && forall j <- joins :: Settled(s.run, j)
    ensures AfterJoins(catalog, s, joins) == s && !SomeRefused(catalog, s, joins)
    decreases |joins|
  {
    if joins != [] {
      assert joins[0] in joins && Settled(s.run, joins[0]);
      SettledDoNothing(catalog, s, joins[1..]);
    }
  }

  lemma TurnSettles(catalog: Catalog, s: JoinState, join: VirtualJoin)
    requires s.Valid() && !JudgeJoin(catalog, s, join).Refused? && !Flips(catalog, s, join)
    ensures Settled(Turned(s, JudgeJoin(catalog, s, join)).run, join)
  {
    if JudgeJoin(catalog, s, join).Attached? {
      RepeatCoveredIff(catalog, s, join);
    }
  }

  lemma {:induction false} AllSettled(catalog: Catalog, s: JoinState, joins: seq<VirtualJoin>, join: VirtualJoin)
    requires s.Valid() && !SomeRefused(catalog, s, joins) && !SomeFlip(catalog, s, joins) && join in joins
    ensures Settled(AfterJoins(catalog, s, joins).run, join)
    decreases |joins|
  {
    var after := Turned(s, JudgeJoin(catalog, s, joins[0]));
    if join == joins[0] {
      TurnSettles(catalog, s, join);
      SettledStays(after.run, AfterJoins(catalog, after, joins[1..]).run, join);
    } else {
      AllSettled(catalog, after, joins[1..], join);
    }
  }

  /** Joins named again, any number of them in any order, change nothing: neither the
      keys nor the references. */
  lemma RepeatsChangeNothing(catalog: Catalog, s: JoinState, joins: seq<VirtualJoin>, again: seq<VirtualJoin>)
    requires s.Valid() && !SomeRefused(catalog, s, joins) && !SomeFlip(catalog, s, joins)
    requires forall j <- again :: j in joins
    ensures AfterJoins(catalog, s, joins + again) == AfterJoins(catalog, s, joins)
  {
    var after := AfterJoins(catalog, s, joins);
    forall j | j in again
      ensures Settled(after.run, j)
    {
      AllSettled(catalog, s, joins, j);
    }
    SettledDoNothing(catalog, after, again);
    InTwoSteps(catalog, s, joins, again);
  }
}
