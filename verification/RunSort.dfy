/** From the checked tables to an insertion order: flagging the keys that point
    into the run, and sorting (cmd/run.go, db/utils.go). */
module RunSort {
  import opened Text
  import opened Sequences
  import opened ReferenceGraph
  import opened Schema
  import opened RunOrder
  import opened RunGraph
  import opened TableSort
  import opened SplitOrder
  import opened LoopCheck

  /** The sort compares names regardless of case, the loop search does not. */
  ghost predicate DistinctIgnoringCase(ts: set<Table>) {
    forall a, b | a in ts && b in ts && SameName(a.name, b.name) :: a == b
  }

  // Flags.

  /** The flags say exactly which of the table's keys point at a table of this run. */
  ghost predicate FlaggedKeys(t: Table, tables: seq<Table>)
    reads t, t.constraints
  {
    forall c <- t.constraints :: c.willBeInsertedDuringThisRun <==> ListsName(tables, c.referencedTableName)
  }

  ghost predicate FlaggedForRun(tables: seq<Table>, run: seq<Table>)
    reads Elements(tables), ConstraintsOf(Elements(tables))
  {
    forall i | 0 <= i < |tables| :: (Covered(Elements(tables), tables[i]); FlaggedKeys(tables[i], run))
  }

  /** No key is flagged without reason. */
  ghost predicate FlagsJustified(keys: set<Constraint>, run: seq<Table>)
    reads keys`willBeInsertedDuringThisRun
  {
    forall c <- keys :: c.willBeInsertedDuringThisRun ==> ListsName(run, c.referencedTableName)
  }

  lemma NoneFlaggedIsJustified(keys: set<Constraint>, more: set<Constraint>, run: seq<Table>)
    requires NoneFlagged(more) && keys <= more
    ensures FlagsJustified(keys, run)
  {
  }

  ghost predicate FlagsAre(keys: set<Constraint>, flagged: set<Constraint>)
    reads keys`willBeInsertedDuringThisRun
  {
    forall c <- keys :: c.willBeInsertedDuringThisRun <==> c in flagged
  }

  /** The keys of the first `n` tables that are to be flagged are in the set. */
  ghost predicate Holds(flagged: set<Constraint>, tables: seq<Table>, n: nat)
    requires n <= |tables|
    reads Elements(tables)`constraints
  {
    && (forall c <- flagged :: ListsName(tables, c.referencedTableName))
    && forall k, c | 0 <= k < n && c in tables[k].constraints && ListsName(tables, c.referencedTableName) ::
         c in flagged
  }

  lemma HoldsOneMore(flagged: set<Constraint>, tables: seq<Table>, n: nat, more: set<Constraint>)
    requires n < |tables| && Holds(flagged, tables, n)
    requires more == flagged + set c | c in tables[n].constraints && ListsName(tables, c.referencedTableName)
    ensures Holds(more, tables, n + 1)
  {
  }

  lemma HeldMeansFlagged(tables: seq<Table>, ts: set<Table>, flagged: set<Constraint>)
    requires Within(tables, ts) && FlagsAre(ConstraintsOf(ts), flagged) && Holds(flagged, tables, |tables|)
    ensures FlaggedForRun(tables, tables)
  {
    forall i | 0 <= i < |tables|
      ensures FlaggedKeys(tables[i], tables)
    {
      Covered(ts, tables[i]);
    }
  }

  /** Flags the keys of every table of the run. */
  method FlagTables(tables: seq<Table>, ghost ts: set<Table>)
    requires Within(tables, ts) && FlagsJustified(ConstraintsOf(ts), tables)
    modifies ConstraintsOf(ts)`willBeInsertedDuringThisRun
    ensures FlaggedForRun(tables, tables)
  {
    ghost var keys := ConstraintsOf(ts);
    ghost var flagged := set c | c in keys && c.willBeInsertedDuringThisRun;
    for i := 0 to |tables|
      invariant FlagsAre(keys, flagged) && Holds(flagged, tables, i)
    {
      assert tables[i].constraints == old(tables[i].constraints);
      assert old(Covered(ts, tables[i]); true);
      tables[i].FlagConstraintThatArePartsOfThisRun(tables);
      ghost var more := flagged + set c | c in tables[i].constraints && ListsName(tables, c.referencedTableName);
      HoldsOneMore(flagged, tables, i, more);
      flagged := more;
    }
    HeldMeansFlagged(tables, ts, flagged);
  }

  // What the sort sees, without the flags.

  /** A table of the run waits for the tables of the run that its keys name. */
  ghost function RunNode(t: Table, run: seq<Table>): Node
    reads t`constraints
  {
    Node(
      Lower(t.name),
      set c | c in t.constraints && ListsName(run, c.referencedTableName) :: Lower(c.referencedTableName))
  }

  ghost function RunNodes(ts: seq<Table>, run: seq<Table>): (nodes: seq<Node>)
    reads Elements(ts)`constraints
    ensures |nodes| == |ts| && forall i | 0 <= i < |ts| :: nodes[i] == RunNode(ts[i], run)
  {
    if ts == [] then []
    else
      assert forall t <- Elements(ts[1..]) :: t in Elements(ts);
      [RunNode(ts[0], run)] + RunNodes(ts[1..], run)
  }

  lemma FlaggedNode(t: Table, run: seq<Table>)
    requires FlaggedKeys(t, run)
    ensures NodeOf(t) == RunNode(t, run)
  {
  }

  lemma FlaggedNodes(ts: seq<Table>, run: seq<Table>)
    requires FlaggedForRun(ts, run)
    ensures Nodes(ts) == RunNodes(ts, run)
  {
    forall i | 0 <= i < |ts|
      ensures Nodes(ts)[i] == RunNodes(ts, run)[i]
    {
      FlaggedNode(ts[i], run);
    }
  }

  /** The same names are listed. */
  ghost predicate SameNamesListed(run: seq<Table>, tables: seq<Table>) {
    && (forall i | 0 <= i < |run| :: ListsName(tables, run[i].name))
    && (forall i | 0 <= i < |tables| :: ListsName(run, tables[i].name))
  }

  lemma SameNamesSameNode(t: Table, run: seq<Table>, tables: seq<Table>)
    requires SameNamesListed(run, tables)
    ensures RunNode(t, run) == RunNode(t, tables)
  {
    forall c <- t.constraints
      ensures ListsName(run, c.referencedTableName) <==> ListsName(tables, c.referencedTableName)
    {
      if i :| 0 <= i < |run| && SameName(run[i].name, c.referencedTableName) {
        assert ListsName(tables, run[i].name);
      }
      if i :| 0 <= i < |tables| && SameName(tables[i].name, c.referencedTableName) {
        assert ListsName(run, tables[i].name);
      }
    }
  }

  lemma SameNamesSameNodes(ts: seq<Table>, run: seq<Table>, tables: seq<Table>)
    requires SameNamesListed(run, tables)
    ensures RunNodes(ts, run) == RunNodes(ts, tables)
  {
    forall i | 0 <= i < |ts|
      ensures RunNodes(ts, run)[i] == RunNodes(ts, tables)[i]
    {
      SameNamesSameNode(ts[i], run, tables);
    }
  }

  // The nodes and the graph.

  /** The tables before the pass, with their graph. */
  ghost predicate Loaded(tables: seq<Table>, ts: set<Table>, names: map<Table, string>, refs: Refs<Table>)
    reads ts`constraints
  {
    && Closed(refs) && refs.Keys == ts && names == TableNames(ts)
    && NamesFit(ts, refs) && DistinctIgnoringCase(ts) && Within(tables, ts)
  }

  lemma ListedIffAmong(tables: seq<Table>, ts: set<Table>, p: Table)
    requires DistinctIgnoringCase(ts) && Within(tables, ts) && p in ts
    ensures ListsName(tables, p.name) <==> p in Elements(tables)
  {
    if p in tables {
      var i :| 0 <= i < |tables| && tables[i] == p;
      assert SameName(tables[i].name, p.name);
    }
  }

  /** What a listed table waits for. */
  lemma NeedsAreReferences(tables: seq<Table>, ts: set<Table>, names: map<Table, string>, refs: Refs<Table>, t: Table,
                           name: string)
    requires Loaded(tables, ts, names, refs) && t in ts
    ensures name in RunNode(t, tables).needs
       <==> exists i | 0 <= i < |refs[t]| :: refs[t][i] in Elements(tables) && Lower(refs[t][i].name) == name
  {
    if name in RunNode(t, tables).needs {
      var c :| c in t.constraints && ListsName(tables, c.referencedTableName) && Lower(c.referencedTableName) == name;
      var i :| 0 <= i < |t.constraints| && t.constraints[i] == c;
      ListedIffAmong(tables, ts, refs[t][i]);
    }
    if i :| 0 <= i < |refs[t]| && refs[t][i] in Elements(tables) && Lower(refs[t][i].name) == name {
      ListedIffAmong(tables, ts, refs[t][i]);
      assert t.constraints[i] in t.constraints;
    }
  }

  lemma OwnNeedIffHome(tables: seq<Table>, ts: set<Table>, names: map<Table, string>, refs: Refs<Table>, t: Table)
    requires Loaded(tables, ts, names, refs) && t in Elements(tables)
    ensures OwnNeed(RunNode(t, tables)) <==> HasHome<Table>(names, refs, t)
  {
    NeedsAreReferences(tables, ts, names, refs, t, Lower(t.name));
    if i :| 0 <= i < |refs[t]| && names[refs[t][i]] == names[t] {
      assert SameName(refs[t][i].name, t.name);
    }
  }

  ghost function Tags(tables: seq<Table>): (tags: map<Table, string>)
    ensures tags.Keys == Elements(tables) && forall t <- tables :: tags[t] == Lower(t.name)
  {
    map t | t in Elements(tables) :: Lower(t.name)
  }

  lemma OtherNeedIsTag(tables: seq<Table>, ts: set<Table>, names: map<Table, string>, refs: Refs<Table>, t: Table,
                       name: string)
    requires Loaded(tables, ts, names, refs) && t in Elements(tables)
    requires name in RunNode(t, tables).needs && name != Lower(t.name)
    ensures name in TagsOf<Table>(Among<Table>(refs, Elements(tables))[t], Tags(tables))
  {
    NeedsAreReferences(tables, ts, names, refs, t, name);
    var i :| 0 <= i < |refs[t]| && refs[t][i] in Elements(tables) && Lower(refs[t][i].name) == name;
    assert refs[t][i] in Among<Table>(refs, Elements(tables))[t] && Tags(tables)[refs[t][i]] == name;
  }

  lemma TagIsOtherNeed(tables: seq<Table>, ts: set<Table>, names: map<Table, string>, refs: Refs<Table>, t: Table,
                       name: string)
    requires Loaded(tables, ts, names, refs) && t in Elements(tables)
    requires name in TagsOf<Table>(Among<Table>(refs, Elements(tables))[t], Tags(tables))
    ensures name in RunNode(t, tables).needs && name != Lower(t.name)
  {
    var p :| p in Among<Table>(refs, Elements(tables))[t] && Tags(tables)[p] == name;
    var i :| 0 <= i < |refs[t]| && refs[t][i] == p;
    assert !SameName(p.name, t.name);
    NeedsAreReferences(tables, ts, names, refs, t, name);
  }

  /** Without its self-reference a table waits for what it references among the others. */
  lemma DroppedNode(tables: seq<Table>, ts: set<Table>, names: map<Table, string>, refs: Refs<Table>, t: Table)
    requires Loaded(tables, ts, names, refs) && t in Elements(tables)
    ensures CopyOf(RunNode(t, tables))
         == Node(Tags(tables)[t], TagsOf<Table>(Among<Table>(refs, Elements(tables))[t], Tags(tables)))
  {
    var node, needs := RunNode(t, tables), TagsOf<Table>(Among<Table>(refs, Elements(tables))[t], Tags(tables));
    forall name
      ensures name in CopyOf(node).needs <==> name in needs
    {
      if name in CopyOf(node).needs {
        OtherNeedIsTag(tables, ts, names, refs, t, name);
      }
      if name in needs {
        TagIsOtherNeed(tables, ts, names, refs, t, name);
      }
    }
    assert CopyOf(node).needs == needs;
  }

  // The copies.

  /** The other keys of a split table: the copy's. */
  lemma CopyKeys(copy: Table, t: Table, h: nat, c: Constraint)
    requires h < |t.constraints| && IsCopy(copy, t, h)
    ensures c in copy.constraints <==> exists i | 0 <= i < |t.constraints| && i != h :: t.constraints[i] == c
  {
    if i :| 0 <= i < |t.constraints| && i != h && t.constraints[i] == c {
      assert copy.constraints[if i < h then i else i - 1] == c;
    }
    if j :| 0 <= j < |copy.constraints| && copy.constraints[j] == c {
      assert t.constraints[if j < h then j else j + 1] == c;
    }
  }

  lemma AllCopyKeys(copy: Table, t: Table, h: nat)
    requires h < |t.constraints| && IsCopy(copy, t, h)
    ensures forall c ::
      c in copy.constraints <==> exists i | 0 <= i < |t.constraints| && i != h :: t.constraints[i] == c
  {
    forall c
      ensures c in copy.constraints <==> exists i | 0 <= i < |t.constraints| && i != h :: t.constraints[i] == c
    {
      CopyKeys(copy, t, h, c);
    }
  }

  /** Names that a key of the copy stands for. */
  ghost predicate CopyNames(t: Table, h: nat, tables: seq<Table>, name: string)
    reads t`constraints
  {
    exists i | 0 <= i < |t.constraints| && i != h ::
      ListsName(tables, t.constraints[i].referencedTableName) && Lower(t.constraints[i].referencedTableName) == name
  }

  lemma CopyNeedsNames(copy: Table, t: Table, h: nat, tables: seq<Table>, name: string)
    requires h < |t.constraints| && IsCopy(copy, t, h)
    ensures name in RunNode(copy, tables).needs <==> CopyNames(t, h, tables, name)
  {
    AllCopyKeys(copy, t, h);
  }

  lemma CopyNeeds(copy: Table, t: Table, tables: seq<Table>, ts: set<Table>, names: map<Table, string>,
                  refs: Refs<Table>, name: string)
    requires Loaded(tables, ts, names, refs) && t in Elements(tables) && CopyFits(copy, t, names, refs)
    ensures name in RunNode(copy, tables).needs
       <==> name in RunNode(t, tables).needs && (name != Lower(t.name) || TwoHomes<Table>(names, refs, t))
  {
    var h := Home<Table>(names, refs, t);
    CopyNeedsNames(copy, t, h, tables, name);
    if CopyNames(t, h, tables, name) {
      var i :| 0 <= i < |t.constraints| && i != h
        && ListsName(tables, t.constraints[i].referencedTableName)
        && Lower(t.constraints[i].referencedTableName) == name;
      assert t.constraints[i] in t.constraints;
      if name == Lower(t.name) {
        assert SameName(refs[t][i].name, t.name);
        TwoHomesAre(names, refs, t, h, i);
      }
    }
    if name in RunNode(t, tables).needs && name != Lower(t.name) {
      var c :| c in t.constraints && ListsName(tables, c.referencedTableName) && Lower(c.referencedTableName) == name;
      var i :| 0 <= i < |t.constraints| && t.constraints[i] == c;
      assert i != h;
    }
    if name == Lower(t.name) && TwoHomes<Table>(names, refs, t) {
      SecondHomeNamed(t, tables, ts, names, refs);
    }
  }

  lemma SecondHomeNamed(t: Table, tables: seq<Table>, ts: set<Table>, names: map<Table, string>, refs: Refs<Table>)
    requires Loaded(tables, ts, names, refs) && t in Elements(tables) && TwoHomes<Table>(names, refs, t)
    ensures CopyNames(t, Home<Table>(names, refs, t), tables, Lower(t.name))
  {
    var i := OtherHome(names, refs, t, Home<Table>(names, refs, t));
    ListedIffAmong(tables, ts, t);
    assert ListsName(tables, t.constraints[i].referencedTableName);
  }

  lemma TwoHomesAre(names: map<Table, string>, refs: Refs<Table>, t: Table, i: nat, j: nat)
    requires Closed(refs) && names.Keys == refs.Keys && t in refs && i < |refs[t]| && j < |refs[t]| && i != j
    requires names[refs[t][i]] == names[t] == names[refs[t][j]]
    ensures TwoHomes<Table>(names, refs, t)
  {
    var a, b := if i < j then i else j, if i < j then j else i;
    assert 0 <= a < b < |refs[t]| && names[refs[t][a]] == names[t] == names[refs[t][b]];
  }

  lemma OtherHome(names: map<Table, string>, refs: Refs<Table>, t: Table, h: nat) returns (i: nat)
    requires Closed(refs) && names.Keys == refs.Keys && t in refs && TwoHomes<Table>(names, refs, t)
    ensures i < |refs[t]| && i != h && names[refs[t][i]] == names[t]
  {
    var a, b :| 0 <= a < b < |refs[t]| && names[refs[t][a]] == names[t] == names[refs[t][b]];
    i := if a != h then a else b;
  }

  /** A copy waits for all but its own name, unless a second key names it. */
  lemma CopyNode(copy: Table, t: Table, tables: seq<Table>, ts: set<Table>, names: map<Table, string>,
                 refs: Refs<Table>)
    requires Loaded(tables, ts, names, refs) && t in Elements(tables) && CopyFits(copy, t, names, refs)
    ensures RunNode(copy, tables)
         == if TwoHomes<Table>(names, refs, t) then RunNode(t, tables) else CopyOf(RunNode(t, tables))
  {
    var node := if TwoHomes<Table>(names, refs, t) then RunNode(t, tables) else CopyOf(RunNode(t, tables));
    forall name
      ensures name in RunNode(copy, tables).needs <==> name in node.needs
    {
      CopyNeeds(copy, t, tables, ts, names, refs, name);
    }
    assert RunNode(copy, tables).needs == node.needs;
  }

  lemma RunNodesBoth(a: seq<Table>, b: seq<Table>, run: seq<Table>)
    ensures RunNodes(a + b, run) == RunNodes(a, run) + RunNodes(b, run)
  {
  }

  lemma RunNodesOfOne(t: Table, run: seq<Table>)
    ensures RunNodes([t], run) == [RunNode(t, run)]
  {
  }

  lemma DroppedCons(node: Node, nodes: seq<Node>)
    ensures Dropped([node] + nodes) == [CopyOf(node)] + Dropped(nodes)
  {
  }

  lemma OneMoreCopy(nodes: seq<Node>, splits: seq<Node>, node: Node)
    requires Copies(nodes) == Dropped(splits)
    ensures Copies(nodes + [node]) == if OwnNeed(node) then Dropped([node] + splits) else Dropped(splits)
  {
    CopiesSnoc(nodes, node);
    DroppedCons(node, splits);
    NoneBefore(Copies(nodes));
  }

  /** One table more, at the end of the list and at the front of the copies. */
  lemma SplitStepNodes(rest: seq<Table>, t: Table, tables: seq<Table>, ts: set<Table>, names: map<Table, string>,
                       refs: Refs<Table>)
    requires Loaded(tables, ts, names, refs) && t in Elements(tables) && forall x <- rest :: x in refs
    ensures RunNodes(rest + [t], tables) == RunNodes(rest, tables) + [RunNode(t, tables)]
    ensures
      var node, splits := RunNode(t, tables), RunNodes(Splits(rest, names, refs), tables);
      RunNodes(Splits(rest + [t], names, refs), tables) == if OwnNeed(node) then [node] + splits else splits
  {
    RunNodesBoth(rest, [t], tables);
    RunNodesOfOne(t, tables);
    SplitsSnoc(rest, t, names, refs);
    OwnNeedIffHome(tables, ts, names, refs, t);
    RunNodesBoth([t], Splits(rest, names, refs), tables);
  }

  /** The copies the pass makes are those that the sort would want. */
  lemma {:induction false} CopiesAreSplits(n: nat, tables: seq<Table>, ts: set<Table>, names: map<Table, string>,
                                           refs: Refs<Table>)
    requires Loaded(tables, ts, names, refs) && n <= |tables|
    ensures Copies(RunNodes(tables[..n], tables)) == Dropped(RunNodes(Splits(tables[..n], names, refs), tables))
  {
    if n > 0 {
      CopiesAreSplits(n - 1, tables, ts, names, refs);
      TakeOneMore(tables, n - 1);
      var rest, t := tables[..n - 1], tables[n - 1];
      SplitStepNodes(rest, t, tables, ts, names, refs);
      OneMoreCopy(RunNodes(rest, tables), RunNodes(Splits(rest, names, refs), tables), RunNode(t, tables));
    }
  }

  ghost predicate OneHomeEach(tables: seq<Table>, names: map<Table, string>, refs: Refs<Table>)
    requires Closed(refs) && names.Keys == refs.Keys && forall t <- tables :: t in refs
  {
    forall t <- tables :: !TwoHomes<Table>(names, refs, t)
  }

  /** No table has two self-references, and apart from self-references the listed
      tables do not reference each other in a circle. */
  ghost predicate Sortable(tables: seq<Table>, names: map<Table, string>, refs: Refs<Table>)
    requires Closed(refs) && names.Keys == refs.Keys && forall t <- tables :: t in refs
  {
    OneHomeEach(tables, names, refs) && Acyclic<Table>(Among<Table>(refs, Elements(tables)))
  }

  lemma CopyNodesAre(tables: seq<Table>, copies: seq<Table>, ts: set<Table>, names: map<Table, string>,
                     refs: Refs<Table>)
    requires Loaded(tables, ts, names, refs) && CopiesFit(copies, Splits(tables, names, refs), names, refs)
    requires OneHomeEach(tables, names, refs)
    ensures RunNodes(copies, tables) == Copies(RunNodes(tables, tables))
  {
    var splits := Splits(tables, names, refs);
    CopiesAreSplits(|tables|, tables, ts, names, refs);
    TakeAll(tables);
    forall k | 0 <= k < |copies|
      ensures RunNode(copies[k], tables) == CopyOf(RunNode(splits[k], tables))
    {
      assert CopyFits(copies[k], splits[k], names, refs) && splits[k] in splits;
      CopyNode(copies[k], splits[k], tables, ts, names, refs);
    }
    assert RunNodes(copies, tables) == Dropped(RunNodes(splits, tables));
  }

  lemma DroppedIffAcyclic(tables: seq<Table>, ts: set<Table>, names: map<Table, string>, refs: Refs<Table>)
    requires Loaded(tables, ts, names, refs)
    ensures CanBeOrdered(Dropped(RunNodes(tables, tables))) <==> Acyclic<Table>(Among<Table>(refs, Elements(tables)))
  {
    var graph, tags, nodes := Among<Table>(refs, Elements(tables)), Tags(tables), Dropped(RunNodes(tables, tables));
    forall i | 0 <= i < |tables|
      ensures tables[i] in graph && nodes[i] == Node(tags[tables[i]], TagsOf<Table>(graph[tables[i]], tags))
    {
      DroppedNode(tables, ts, names, refs, tables[i]);
    }
    assert UniqueNames<Table>(tags) by {
      assert forall a, b | a in Elements(tables) && b in Elements(tables) && tags[a] == tags[b] ::
        SameName(a.name, b.name);
    }
    OrderIffAcyclic<Table>(graph, tags, tables, nodes);
  }

  lemma CopyOfTwoHomes(copy: Table, u: Table, tables: seq<Table>, ts: set<Table>, names: map<Table, string>,
                       refs: Refs<Table>, t: Table)
    requires Loaded(tables, ts, names, refs) && u in Elements(tables) && CopyFits(copy, u, names, refs)
    requires t in Elements(tables) && TwoHomes<Table>(names, refs, t) && SameName(copy.name, t.name)
    ensures RunNode(copy, tables) == RunNode(t, tables)
  {
    assert SameName(u.name, t.name);
    CopyNode(copy, u, tables, ts, names, refs);
  }

  /** The table that a copy was made of. */
  lemma SplitOf(copies: seq<Table>, tables: seq<Table>, names: map<Table, string>, refs: Refs<Table>, k: nat)
    returns (u: Table)
    requires Closed(refs) && names.Keys == refs.Keys && Within(tables, refs.Keys)
    requires CopiesFit(copies, Splits(tables, names, refs), names, refs) && k < |copies|
    ensures u in Elements(tables) && CopyFits(copies[k], u, names, refs)
  {
    u := Splits(tables, names, refs)[k];
    assert u in Splits(tables, names, refs);
  }

  lemma SameNameSameNeed(tables: seq<Table>, copies: seq<Table>, ts: set<Table>, names: map<Table, string>,
                         refs: Refs<Table>, t: Table, j: nat)
    requires Loaded(tables, ts, names, refs) && CopiesFit(copies, Splits(tables, names, refs), names, refs)
    requires t in tables && TwoHomes<Table>(names, refs, t)
    requires j < |copies + tables| && SameName((copies + tables)[j].name, t.name)
    ensures Lower(t.name) in RunNode((copies + tables)[j], tables).needs
  {
    OwnNeedIffHome(tables, ts, names, refs, t);
    if j < |copies| {
      var u := SplitOf(copies, tables, names, refs, j);
      CopyOfTwoHomes(copies[j], u, tables, ts, names, refs, t);
    } else {
      assert tables[j - |copies|] in ts;
    }
  }

  lemma EveryNodeNeeds(nodes: seq<Node>, run: seq<Table>, tables: seq<Table>, copies: seq<Table>, ts: set<Table>,
                       names: map<Table, string>, refs: Refs<Table>, t: Table, i: nat)
    requires Loaded(tables, ts, names, refs) && CopiesFit(copies, Splits(tables, names, refs), names, refs)
    requires t in tables && TwoHomes<Table>(names, refs, t)
    requires run == copies + tables && nodes == RunNodes(run, tables) && i < |run| && run[i] == t
    ensures forall j | 0 <= j < |nodes| && nodes[j].name == nodes[i].name :: nodes[i].name in nodes[j].needs
  {
    forall j | 0 <= j < |nodes| && nodes[j].name == nodes[i].name
      ensures nodes[i].name in nodes[j].needs
    {
      SameNameSameNeed(tables, copies, ts, names, refs, t, j);
    }
  }

  /** A table with two self-references: neither it nor its copy can go first. */
  lemma TwoHomesBlock(tables: seq<Table>, copies: seq<Table>, ts: set<Table>, names: map<Table, string>,
                      refs: Refs<Table>, t: Table)
    requires Loaded(tables, ts, names, refs) && CopiesFit(copies, Splits(tables, names, refs), names, refs)
    requires t in tables && TwoHomes<Table>(names, refs, t)
    ensures !CanBeOrdered(RunNodes(copies + tables, tables))
  {
    var run := copies + tables;
    var k :| 0 <= k < |tables| && tables[k] == t;
    var i := |copies| + k;
    assert run[i] == t;
    EveryNodeNeeds(RunNodes(run, tables), run, tables, copies, ts, names, refs, t, i);
    OwnNameBlocks(RunNodes(run, tables), i);
  }

  /** The checked list can be sorted exactly when it is sortable. */
  lemma OrderedIffSortable(tables: seq<Table>, copies: seq<Table>, ts: set<Table>, names: map<Table, string>,
                           refs: Refs<Table>)
    requires Loaded(tables, ts, names, refs) && CopiesFit(copies, Splits(tables, names, refs), names, refs)
    ensures CanBeOrdered(RunNodes(copies + tables, tables)) <==> Sortable(tables, names, refs)
  {
    if OneHomeEach(tables, names, refs) {
      CopyNodesAre(tables, copies, ts, names, refs);
      RunNodesBoth(copies, tables, tables);
      SplitsSortIffDropped(RunNodes(tables, tables));
      DroppedIffAcyclic(tables, ts, names, refs);
    } else {
      var t :| t in tables && TwoHomes<Table>(names, refs, t);
      TwoHomesBlock(tables, copies, ts, names, refs, t);
    }
  }

  // Sorting the run.

  lemma NodesMultiset(a: seq<Table>, b: seq<Table>)
    requires multiset(a) == multiset(b)
    ensures multiset(Nodes(a)) == multiset(Nodes(b))
  {
    var m := map t | t in Elements(a) :: NodeOf(t);
    forall i | 0 <= i < |b|
      ensures b[i] in Elements(a)
    {
      assert b[i] in multiset(a);
    }
    MappedMultiset<Table, Node>(m, a, Nodes(a), b, Nodes(b));
  }

  /** Sorts a copy of the list. */
  method SortRun(run: seq<Table>) returns (outcome: SortOutcome)
    ensures outcome.Sorted? <==> CanBeOrdered(Nodes(run))
    ensures outcome.Sorted? ==> multiset(outcome.order) == multiset(run) && DepsFirst(Nodes(outcome.order))
  {
    var list := new Table[|run|](i requires 0 <= i < |run| => run[i]);
    assert list[..] == run;
    ghost var order;
    outcome, order := SortTables(list);
    NodesMultiset(list[..], run);
  }

  /** Each table comes after the other tables of the run that it references; a
      copy counts as its table. */
  ghost predicate InOrder(order: seq<Table>, tables: seq<Table>, refs: Refs<Table>)
    requires Elements(tables) <= refs.Keys
  {
    forall k, t, p |
      && 0 <= k < |order| && t in Elements(tables) && order[k].name == t.name
      && p in Among<Table>(refs, Elements(tables))[t] ::
      NamedAmong(order[..k], p.name)
  }

  predicate NamedAmong(before: seq<Table>, name: string) {
    exists j | 0 <= j < |before| :: before[j].name == name
  }

  /** What stands in the list: a listed table, or the copy of one. */
  lemma RunTable(x: Table, tables: seq<Table>, copies: seq<Table>, ts: set<Table>, names: map<Table, string>,
                 refs: Refs<Table>)
    returns (t: Table)
    requires Loaded(tables, ts, names, refs) && CopiesFit(copies, Splits(tables, names, refs), names, refs)
    requires x in copies + tables
    ensures t in Elements(tables) && x.name == t.name
    ensures CopyOf(RunNode(t, tables)).needs <= RunNode(x, tables).needs
  {
    if x in tables {
      t := x;
    } else {
      var k :| 0 <= k < |copies| && copies[k] == x;
      t := Splits(tables, names, refs)[k];
      assert CopyFits(copies[k], t, names, refs) && t in Splits(tables, names, refs);
      CopyNode(x, t, tables, ts, names, refs);
    }
  }

  lemma WaitsForOthers(x: Table, t: Table, p: Table, tables: seq<Table>, copies: seq<Table>, ts: set<Table>,
                       names: map<Table, string>, refs: Refs<Table>)
    requires Loaded(tables, ts, names, refs) && CopiesFit(copies, Splits(tables, names, refs), names, refs)
    requires x in copies + tables && t in Elements(tables) && x.name == t.name
    requires p in Among<Table>(refs, Elements(tables))[t]
    ensures Lower(p.name) in RunNode(x, tables).needs
  {
    var u := RunTable(x, tables, copies, ts, names, refs);
    assert SameName(u.name, t.name);
    TagIsOtherNeed(tables, ts, names, refs, t, Lower(p.name));
  }

  lemma SameListAsRun(tables: seq<Table>, copies: seq<Table>, ts: set<Table>, names: map<Table, string>,
                      refs: Refs<Table>)
    requires Loaded(tables, ts, names, refs) && CopiesFit(copies, Splits(tables, names, refs), names, refs)
    ensures SameNamesListed(copies + tables, tables)
  {
    var run := copies + tables;
    forall i | 0 <= i < |run|
      ensures ListsName(tables, run[i].name)
    {
      var t := RunTable(run[i], tables, copies, ts, names, refs);
      ListedIffAmong(tables, ts, t);
    }
    forall i | 0 <= i < |tables|
      ensures ListsName(run, tables[i].name)
    {
      assert run[|copies| + i] == tables[i] && SameName(run[|copies| + i].name, tables[i].name);
    }
  }

  lemma PlacedBefore(order: seq<Table>, nodes: seq<Node>, k: nat, name: string) returns (j: nat)
    requires nodes == Nodes(order) && DepsFirst(nodes) && k < |order| && Lower(name) in nodes[k].needs
    ensures j < k && SameName(order[j].name, name)
  {
    j := NeededBefore(nodes, k, Lower(name));
    assert nodes[j] == NodeOf(order[j]);
  }

  lemma NeededBefore(nodes: seq<Node>, k: nat, name: string) returns (j: nat)
    requires DepsFirst(nodes) && k < |nodes| && name in nodes[k].needs
    ensures j < k && nodes[j].name == name
  {
    assert Ready(nodes[..k], nodes[k]);
    var b :| b in nodes[..k] && b.name == name;
    j :| 0 <= j < k && nodes[..k][j] == b;
  }

  lemma ParentNamedBefore(order: seq<Table>, tables: seq<Table>, copies: seq<Table>, ts: set<Table>,
                          names: map<Table, string>, refs: Refs<Table>, k: nat, t: Table, p: Table)
    requires Loaded(tables, ts, names, refs) && CopiesFit(copies, Splits(tables, names, refs), names, refs)
    requires (forall x <- order :: x in copies + tables) && DepsFirst(Nodes(order))
    requires k < |order| && NodeOf(order[k]) == RunNode(order[k], tables)
    requires t in Elements(tables) && order[k].name == t.name && p in Among<Table>(refs, Elements(tables))[t]
    ensures NamedAmong(order[..k], p.name)
  {
    WaitsForOthers(order[k], t, p, tables, copies, ts, names, refs);
    var j := PlacedBefore(order, Nodes(order), k, p.name);
    var q := RunTable(order[j], tables, copies, ts, names, refs);
    assert SameName(q.name, p.name);
    assert order[..k][j].name == p.name;
  }

  lemma SortedIsInOrder(order: seq<Table>, run: seq<Table>, tables: seq<Table>, copies: seq<Table>, ts: set<Table>,
                        names: map<Table, string>, refs: Refs<Table>)
    requires Loaded(tables, ts, names, refs) && CopiesFit(copies, Splits(tables, names, refs), names, refs)
    requires run == copies + tables && multiset(order) == multiset(run)
    requires FlaggedForRun(run, run) && DepsFirst(Nodes(order))
    ensures InOrder(order, tables, refs)
  {
    SameListAsRun(tables, copies, ts, names, refs);
    forall x <- order
      ensures x in run && NodeOf(x) == RunNode(x, tables)
    {
      assert x in multiset(run);
      var i :| 0 <= i < |run| && run[i] == x;
      FlaggedNode(run[i], run);
      SameNamesSameNode(x, run, tables);
    }
    forall k, t, p | 0 <= k < |order| && t in Elements(tables) && order[k].name == t.name
      && p in Among<Table>(refs, Elements(tables))[t]
      ensures NamedAmong(order[..k], p.name)
    {
      ParentNamedBefore(order, tables, copies, ts, names, refs, k, t, p);
    }
  }

  lemma FlaggedRunOrderedIff(run: seq<Table>, tables: seq<Table>, copies: seq<Table>, ts: set<Table>,
                             names: map<Table, string>, refs: Refs<Table>)
    requires Loaded(tables, ts, names, refs) && CopiesFit(copies, Splits(tables, names, refs), names, refs)
    requires run == copies + tables && FlaggedForRun(run, run)
    ensures CanBeOrdered(Nodes(run)) <==> Sortable(tables, names, refs)
  {
    SameListAsRun(tables, copies, ts, names, refs);
    FlaggedNodes(run, run);
    SameNamesSameNodes(run, run, tables);
    OrderedIffSortable(tables, copies, ts, names, refs);
  }

  /** What the plan comes to, given the graph of the loaded tables: it ends exactly
      when the tables are sortable, and then with every listed table and a copy of each that
      references itself, each after the other tables of the run that it references. */
  ghost predicate Planned(outcome: SortOutcome, copies: seq<Table>, tables: seq<Table>, names: map<Table, string>,
                          refs: Refs<Table>)
    requires Closed(refs) && names.Keys == refs.Keys && forall t <- tables :: t in refs
  {
    && (outcome.Sorted? <==> Sortable(tables, names, refs))
    && (outcome.Sorted? ==>
          multiset(outcome.order) == multiset(copies + tables) && InOrder(outcome.order, tables, refs))
  }

  lemma SortedRunIsPlanned(outcome: SortOutcome, run: seq<Table>, tables: seq<Table>, copies: seq<Table>,
                           ts: set<Table>, names: map<Table, string>, refs: Refs<Table>)
    requires Loaded(tables, ts, names, refs) && CopiesFit(copies, Splits(tables, names, refs), names, refs)
    requires run == copies + tables && FlaggedForRun(run, run)
    requires outcome.Sorted? <==> CanBeOrdered(Nodes(run))
    requires outcome.Sorted? ==> multiset(outcome.order) == multiset(run) && DepsFirst(Nodes(outcome.order))
    ensures Planned(outcome, copies, tables, names, refs)
  {
    FlaggedRunOrderedIff(run, tables, copies, ts, names, refs);
    if outcome.Sorted? {
      SortedIsInOrder(outcome.order, run, tables, copies, ts, names, refs);
    }
  }

  method FlagAndSort(run: seq<Table>, ghost all: set<Table>) returns (outcome: SortOutcome)
    requires Within(run, all) && FlagsJustified(ConstraintsOf(all), run)
    modifies ConstraintsOf(all)`willBeInsertedDuringThisRun
    ensures FlaggedForRun(run, run) && (outcome.Sorted? <==> CanBeOrdered(Nodes(run)))
    ensures outcome.Sorted? ==> multiset(outcome.order) == multiset(run) && DepsFirst(Nodes(outcome.order))
  {
    FlagTables(run, all);
    ghost var flagged := FlaggedForRun(run, run);
    outcome := SortRun(run);
    assert flagged == FlaggedForRun(run, run);
  }

  /** Flags and sorts the checked list. */
  method OrderRun(run: seq<Table>, ghost all: set<Table>, ghost tables: seq<Table>, ghost copies: seq<Table>,
                  ghost ts: set<Table>, ghost names: map<Table, string>, ghost refs: Refs<Table>)
    returns (outcome: SortOutcome)
    requires Closed(refs) && names.Keys == refs.Keys && Within(tables, refs.Keys)
    requires run == copies + tables && Within(run, all) && FlagsJustified(ConstraintsOf(all), run)
    requires CopiesFit(copies, Splits(tables, names, refs), names, refs)
    modifies ConstraintsOf(all)`willBeInsertedDuringThisRun
    ensures old(Loaded(tables, ts, names, refs)) ==> Planned(outcome, copies, tables, names, refs)
  {
    ghost var splits, loaded := Splits(tables, names, refs), Loaded(tables, ts, names, refs);
    ghost var fit := CopiesFit(copies, splits, names, refs);
    outcome := FlagAndSort(run, all);
    assert loaded == Loaded(tables, ts, names, refs) && fit == CopiesFit(copies, splits, names, refs);
    if loaded {
      SortedRunIsPlanned(outcome, run, tables, copies, ts, names, refs);
    }
  }

  /** The loop check, seen from the rest of the run. */
  method CheckRun(tables: seq<Table>, ghost ts: set<Table>, ghost names: map<Table, string>, ghost refs: Refs<Table>)
    returns (r: Result<seq<Table>, PlanError>, ghost all: set<Table>, ghost copies: seq<Table>)
    requires GraphNow(ts, refs) && NoneShared(ts) && Within(tables, ts) && names == TableNames(ts)
    requires NamesFit(ts, refs) && NoneFlagged(ConstraintsOf(ts))
    modifies ConstraintsOf(ts)`referencedTable
    ensures r.Ok? <==> old(AllPass(tables, names, refs))
    ensures r.Ok? ==>
      && r.value == copies + tables && CopiesFit(copies, Splits(tables, names, refs), names, refs)
      && Within(r.value, all) && FlagsJustified(ConstraintsOf(all), r.value)
    ensures NamesFit(ts, refs) && ConstraintsOf(all) <= old(ConstraintsOf(ts))
  {
    ghost var keys, fits, none := ConstraintsOf(ts), NamesFit(ts, refs), NoneFlagged(ConstraintsOf(ts));
    ghost var now;
    r, all, now, copies := CheckLoops(tables, ts, names, refs);
    assert fits == NamesFit(ts, refs) && none == NoneFlagged(keys);
    if r.Ok? {
      NoneFlaggedIsJustified(ConstraintsOf(all), keys, r.value);
    }
  }

  /** From the loaded tables to the insertion order, without virtual keys. */
  method PlanInserts(tables: seq<Table>, ghost ts: set<Table>, ghost names: map<Table, string>, ghost refs: Refs<Table>)
    returns (r: Result<SortOutcome, PlanError>, ghost copies: seq<Table>)
    requires GraphNow(ts, refs) && NoneShared(ts) && Within(tables, ts) && names == TableNames(ts)
    requires NamesFit(ts, refs) && NoneFlagged(ConstraintsOf(ts))
    modifies ConstraintsOf(ts)`referencedTable, ConstraintsOf(ts)`willBeInsertedDuringThisRun
    ensures r.Ok? <==> old(AllPass(tables, names, refs))
    ensures r.Ok? ==> CopiesFit(copies, Splits(tables, names, refs), names, refs)
    ensures r.Ok? && DistinctIgnoringCase(ts) ==> Planned(r.value, copies, tables, names, refs)
  {
    var checked;
    ghost var all;
    checked, all, copies := CheckRun(tables, ts, names, refs);
    if checked.Err? {
      return Err(checked.error), copies;
    }
    var outcome := OrderRun(checked.value, all, tables, copies, ts, names, refs);
    r := Ok(outcome);
  }
}
