/** What a list of joins does to the keys of the listed tables, as a function of
    the catalogue (db/constraint.go AddVirtualFKs). */
module JoinSteps {
  import opened Text
  import opened Fields
  import opened ReferenceGraph
  import opened Loader
  import opened RunOrder
  import opened VirtualJoins

  /** A foreign key as far as joins and the sort look at it: all of it is fixed
      when the key is made. */
  datatype Link = Link(parent: string, columns: seq<string>, parentColumns: seq<string>)

  /** A listed table with its keys. */
  datatype Entry = Entry(table: QName, links: seq<Link>)

  /** The references between all tables of the catalogue, and the list. */
  datatype JoinState = JoinState(graph: Refs<QName>, run: seq<Entry>) {
    ghost predicate Valid() {
      forall i | 0 <= i < |run| :: run[i].table in graph
    }
  }

  // Which joins become keys.

  /** Every name of `s1` occurs in `s2`, regardless of case. */
  predicate IsSliceSimilar(s1: seq<string>, s2: seq<string>) {
    forall i | 0 <= i < |s1| :: HasName(s2, s1[i])
  }

  predicate SameLink(table: string, l: Link, child: VirtualJoinPart, parent: VirtualJoinPart) {
    && SameName(child.table, table) && SameName(parent.table, l.parent)
    && IsSliceSimilar(l.columns, child.columns) && IsSliceSimilar(l.parentColumns, parent.columns)
  }

  /** The key already says what the join says, either way round. */
  predicate Says(table: string, l: Link, join: VirtualJoin) {
    SameLink(table, l, join.left, join.right) || SameLink(table, l, join.right, join.left)
  }

  predicate CoveredBy(run: seq<Entry>, join: VirtualJoin) {
    exists i, k | 0 <= i < |run| && 0 <= k < |run[i].links| :: Says(run[i].table.table, run[i].links[k], join)
  }

  ghost predicate Occurs(name: string, others: seq<string>) {
    exists b | 0 <= b < |others| :: Lower(others[b]) == Lower(name)
  }

  /** Each of the names is one of the others, up to capitals. */
  ghost predicate AllOccur(names: seq<string>, others: seq<string>) {
    forall a | 0 <= a < |names| :: Occurs(names[a], others)
  }

  /** Key `k` of the listed table leads from the table of the one part to that of
      the other, each of its columns among those of the first part, each of its parent
      columns among those of the second. */
  ghost predicate Leads(e: Entry, k: nat, child: VirtualJoinPart, parent: VirtualJoinPart) {
    && k < |e.links| && Lower(child.table) == Lower(e.table.table) && Lower(parent.table) == Lower(e.links[k].parent)
    && AllOccur(e.links[k].columns, child.columns) && AllOccur(e.links[k].parentColumns, parent.columns)
  }

  lemma SimilarIff(names: seq<string>, others: seq<string>)
    ensures IsSliceSimilar(names, others) <==> AllOccur(names, others)
  {
  }

  /** A join is covered exactly if a key leads along it, one way or the other. */
  lemma CoveredIff(run: seq<Entry>, join: VirtualJoin)
    ensures CoveredBy(run, join) <==>
      exists i, k: nat | 0 <= i < |run| ::
        Leads(run[i], k, join.left, join.right) || Leads(run[i], k, join.right, join.left)
  {
    forall i, k: nat | 0 <= i < |run| && k < |run[i].links|
      ensures Says(run[i].table.table, run[i].links[k], join) <==>
        Leads(run[i], k, join.left, join.right) || Leads(run[i], k, join.right, join.left)
    {
      LeadsIff(run[i], k, join.left, join.right);
      LeadsIff(run[i], k, join.right, join.left);
    }
  }

  lemma LeadsIff(e: Entry, k: nat, child: VirtualJoinPart, parent: VirtualJoinPart)
    requires k < |e.links|
    ensures Leads(e, k, child, parent) <==> SameLink(e.table.table, e.links[k], child, parent)
  {
    SimilarIff(e.links[k].columns, child.columns);
    SimilarIff(e.links[k].parentColumns, parent.columns);
  }

  lemma OccurInThemselves(names: seq<string>)
    ensures AllOccur(names, names)
  {
  }

  /** A join written as key `k` of a listed table is covered, whichever side comes first. */
  lemma KeyCoversItself(run: seq<Entry>, i: nat, k: nat, join: VirtualJoin)
    requires i < |run| && k < |run[i].links|
    requires SameName(join.right.table, run[i].table.table) && join.right.columns == run[i].links[k].columns
    requires SameName(join.left.table, run[i].links[k].parent) && join.left.columns == run[i].links[k].parentColumns
    ensures CoveredBy(run, join) && CoveredBy(run, VirtualJoin(join.right, join.left))
  {
    OccurInThemselves(join.right.columns);
    OccurInThemselves(join.left.columns);
    assert Leads(run[i], k, join.right, join.left);
    CoveredIff(run, join);
    CoveredIff(run, VirtualJoin(join.right, join.left));
  }

  /** Where the first listed table of that name stands; the length if there is none. */
  function EntryNamed(run: seq<Entry>, name: string): (i: nat)
    ensures i <= |run| && (i < |run| ==> SameName(run[i].table.table, name))
    ensures forall k | 0 <= k < i :: !SameName(run[k].table.table, name)
  {
    if run == [] || SameName(run[0].table.table, name) then 0 else 1 + EntryNamed(run[1..], name)
  }

  /** The parent cannot be loaded, or lacks a column. */
  ghost predicate Broken(catalog: Catalog, parent: QName, columns: seq<string>) {
    Unloadable(catalog, parent) || !HasColumns(catalog[parent].fields, columns)
  }

  function TableOf(graph: Refs<QName>): (names: map<QName, string>)
    ensures names.Keys == graph.Keys
  {
    map q | q in graph :: q.table
  }

  /** Some walk along the references from the table on meets a table name twice. */
  ghost predicate RepeatsFrom(graph: Refs<QName>, q: QName) {
    exists w: seq<QName> :: RepeatingWalk<QName>(TableOf(graph), graph, [], q, w)
  }

  // One join.

  datatype Verdict =
    | AlreadyCovered
    | ChildNotListed
    | Refused
    | Attached(child: nat, parent: QName, link: Link)

  /** The key from the columns of the one part to those of the other. */
  function Toward(i: nat, schema: string, parent: VirtualJoinPart, child: VirtualJoinPart): Verdict {
    Attached(i, QName(schema, parent.table), Link(parent.table, child.columns, parent.columns))
  }

  /** The guard: the parent the join asks for leads into a loop of names already. */
  ghost predicate GuardFires(graph: Refs<QName>, schema: string, join: VirtualJoin) {
    RepeatsFrom(graph, QName(schema, join.left.table))
  }

  /** What becomes of a join that no key covers and whose child is listed: a key from
      child to parent; if the guard fires, one to the side called child; nothing if that key is broken. */
  ghost function JudgeKey(catalog: Catalog, graph: Refs<QName>, schema: string, join: VirtualJoin, i: nat): (v: Verdict)
    ensures v.Refused? || (v.Attached? && v.child == i)
  {
    if Broken(catalog, QName(schema, join.left.table), join.left.columns) then Refused
    else if !GuardFires(graph, schema, join) then Toward(i, schema, join.left, join.right)
    else if Broken(catalog, QName(schema, join.right.table), join.right.columns) then Refused
    else Toward(i, schema, join.right, join.left)
  }

  ghost function JudgeJoin(catalog: Catalog, s: JoinState, join: VirtualJoin): (v: Verdict)
    ensures v.Attached? ==> v.child < |s.run|
  {
    if CoveredBy(s.run, join) then AlreadyCovered
    else
      var i := EntryNamed(s.run, join.right.table);
      if i == |s.run| then ChildNotListed else JudgeKey(catalog, s.graph, s.run[i].table.schema, join, i)
  }

  /** One key more on the table's list, and one reference more. */
  ghost function Turned(s: JoinState, v: Verdict): (after: JoinState)
    requires s.Valid() && (v.Attached? ==> v.child < |s.run|)
    ensures after.Valid() && |after.run| == |s.run|
    ensures forall i | 0 <= i < |s.run| :: after.run[i].table == s.run[i].table && s.run[i].links <= after.run[i].links
  {
    match v
    case Attached(i, parent, link) =>
      var e := s.run[i];
      JoinState(AddEdge<QName>(s.graph, e.table, parent), s.run[i := Entry(e.table, e.links + [link])])
    case _ => s
  }

  /** All joins in turn, up to the first that is refused. */
  ghost function AfterJoins(catalog: Catalog, s: JoinState, joins: seq<VirtualJoin>): (after: JoinState)
    requires s.Valid()
    ensures after.Valid() && |after.run| == |s.run|
    ensures forall i | 0 <= i < |s.run| :: after.run[i].table == s.run[i].table && s.run[i].links <= after.run[i].links
    decreases |joins|
  {
    if joins == [] then s
    else
      var v := JudgeJoin(catalog, s, joins[0]);
      if v.Refused? then s else AfterJoins(catalog, Turned(s, v), joins[1..])
  }

  /** One of the joins is refused at its turn. */
  ghost predicate SomeRefused(catalog: Catalog, s: JoinState, joins: seq<VirtualJoin>)
    requires s.Valid()
    decreases |joins|
  {
    joins != []
    && var v := JudgeJoin(catalog, s, joins[0]);
       v.Refused? || SomeRefused(catalog, Turned(s, v), joins[1..])
  }

  // What the sort sees.

  predicate NamesTable(run: seq<Entry>, name: string) {
    exists i | 0 <= i < |run| :: SameName(run[i].table.table, name)
  }

  /** A listed table waits for the listed tables that its keys name. */
  function EntryNode(e: Entry, run: seq<Entry>): Node {
    Node(Lower(e.table.table), set l <- e.links | NamesTable(run, l.parent) :: Lower(l.parent))
  }

  function EntryNodes(order: seq<Entry>, run: seq<Entry>): (nodes: seq<Node>)
    ensures |nodes| == |order| && forall i | 0 <= i < |order| :: nodes[i] == EntryNode(order[i], run)
  {
    seq(|order|, i requires 0 <= i < |order| => EntryNode(order[i], run))
  }

  // The list before the joins.

  function LinkOf(k: ForeignKey): Link {
    Link(k.parent.table, k.columns, k.parentColumns)
  }

  function LinksOf(keys: seq<ForeignKey>): (links: seq<Link>)
    ensures |links| == |keys| && forall i | 0 <= i < |keys| :: links[i] == LinkOf(keys[i])
  {
    seq(|keys|, i requires 0 <= i < |keys| => LinkOf(keys[i]))
  }

  /** The first key that leads to that name; the number of keys if there is none. */
  function OwnNameKey(keys: seq<ForeignKey>, name: string): (i: nat)
    ensures i <= |keys| && (i < |keys| ==> keys[i].parent.table == name)
    ensures forall k | 0 <= k < i :: keys[k].parent.table != name
  {
    if keys == [] || keys[0].parent.table == name then 0 else 1 + OwnNameKey(keys[1..], name)
  }

  predicate NamesItself(catalog: Catalog, q: QName) {
    q in catalog && OwnNameKey(catalog[q].keys, q.table) < |catalog[q].keys|
  }

  /** What the loop check asks of a listed table: if it references its own name,
      that the columns of the first key that does can be NULL; otherwise that no reference leads
      into a loop of names. */
  ghost predicate Admitted(catalog: Catalog, q: QName)
    requires q in catalog
  {
    var def := catalog[q];
    if NamesItself(catalog, q) then
      forall f <- Located(def.fields, def.keys[OwnNameKey(def.keys, q.table)].columns) :: f.isNullable
    else
      forall i | 0 <= i < |def.keys| :: !RepeatsFrom(CatalogRefs(catalog), def.keys[i].parent)
  }

  /** The references after the check: a listed table that references its own name
      references its copy instead. */
  function CheckedRefs(catalog: Catalog, roots: seq<QName>): (graph: Refs<QName>)
    ensures graph.Keys == catalog.Keys
  {
    map q | q in catalog ::
      var keys := catalog[q].keys;
      if q in roots && NamesItself(catalog, q) then Parents(keys)[OwnNameKey(keys, q.table) := q] else Parents(keys)
  }

  predicate AllKnown(catalog: Catalog, roots: seq<QName>) {
    forall i | 0 <= i < |roots| :: roots[i] in catalog
  }

  ghost predicate AllAdmitted(catalog: Catalog, roots: seq<QName>) {
    AllKnown(catalog, roots) && forall i | 0 <= i < |roots| :: Admitted(catalog, roots[i])
  }

  function RootEntries(catalog: Catalog, roots: seq<QName>): (entries: seq<Entry>)
    requires AllKnown(catalog, roots)
    ensures |entries| == |roots|
    ensures forall i | 0 <= i < |roots| :: entries[i] == Entry(roots[i], LinksOf(catalog[roots[i]].keys))
  {
    seq(|roots|, i requires 0 <= i < |roots| => Entry(roots[i], LinksOf(catalog[roots[i]].keys)))
  }

  /** The copy of a split table: without the key that led home. */
  function CopyEntry(catalog: Catalog, q: QName): (entries: seq<Entry>)
    requires q in catalog
    ensures |entries| == if NamesItself(catalog, q) then 1 else 0
  {
    var keys, h := catalog[q].keys, OwnNameKey(catalog[q].keys, q.table);
    if h < |keys| then [Entry(q, LinksOf(keys[..h] + keys[h + 1..]))] else []
  }

  /** The copies in the order in which they end up. */
  function CopyEntries(catalog: Catalog, roots: seq<QName>): (entries: seq<Entry>)
    requires AllKnown(catalog, roots)
    ensures forall i | 0 <= i < |entries| :: entries[i].table in roots && NamesItself(catalog, entries[i].table)
  {
    if roots == [] then []
    else
      CopyEntry(catalog, roots[|roots| - 1]) + CopyEntries(catalog, roots[..|roots| - 1])
  }

  /** The listed tables and the references as the check leaves them. */
  function Start(catalog: Catalog, roots: seq<QName>): (s: JoinState)
    requires AllKnown(catalog, roots)
    ensures s.Valid()
  {
    JoinState(CheckedRefs(catalog, roots), CopyEntries(catalog, roots) + RootEntries(catalog, roots))
  }
}
