/** What the exact conditions of the preparation come to for whole families of
    catalogues, and the pair of tables that no run can insert. */
module RunVerdicts {
  import opened Text
  import opened Fields
  import opened ReferenceGraph
  import opened Loader
  import opened Loading
  import opened TableSort
  import opened Pipeline

  lemma SelfReferenceIsCycle(catalog: Catalog, q: QName)
    requires ReferencesItselfDirectly(catalog, q)
    ensures CycleReachable(CatalogRefs(catalog), q)
  {
    var refs, i := CatalogRefs(catalog), FirstSelfKey(catalog[q].keys, q);
    assert refs[q][i] == q;
    ReachesRefl(refs, q);
    assert q in refs[q] && Reaches(refs, q, q);
  }

  lemma NoneSelfReferencing(catalog: Catalog, roots: seq<QName>)
    requires forall q <- roots :: !ReferencesItselfDirectly(catalog, q)
    ensures SelfReferencing(catalog, roots) == []
  {
  }

  /** The promise of the repository: if nothing behind the listed tables forms a cycle,
      all of them are ordered, once each, parents first. */
  lemma NoCycleDelivers(catalog: Catalog, roots: seq<QName>, r: Result<SortOutcome, RunError>)
    requires SetOf(roots) <= catalog.Keys && DistinctlyNamed(catalog, roots) && Delivers(catalog, roots, r)
    requires forall q <- roots :: !CycleReachable(CatalogRefs(catalog), q)
    ensures r.Ok? && r.value.Sorted? && multiset(NamesOfTables(r.value.order)) == multiset(roots)
    ensures GoodOrder(catalog, roots, NamesOfTables(r.value.order))
  {
    forall q <- roots
      ensures !ReferencesItselfDirectly(catalog, q) && !TwoSelfKeys(catalog, q)
    {
      if ReferencesItselfDirectly(catalog, q) {
        SelfReferenceIsCycle(catalog, q);
      }
    }
    if !Acyclic<QName>(Among<QName>(CatalogRefs(catalog), SetOf(roots))) {
      var q := CycleAmongIsCycle<QName>(CatalogRefs(catalog), SetOf(roots));
    }
    NoneSelfReferencing(catalog, roots);
  }

  /** A self-referencing table is accepted, but no other listed table may reference
      it, unless that one references itself as well. */
  lemma ChildOfSelfReferencingIsRejected(catalog: Catalog, roots: seq<QName>, r: Result<SortOutcome, RunError>,
                                         q: QName, i: nat)
    requires SetOf(roots) <= catalog.Keys && DistinctlyNamed(catalog, roots) && Delivers(catalog, roots, r)
    requires q in roots && !ReferencesItselfDirectly(catalog, q)
    requires i < |catalog[q].keys| && ReferencesItselfDirectly(catalog, catalog[q].keys[i].parent)
    ensures r.Err?
  {
    var refs, p := CatalogRefs(catalog), catalog[q].keys[i].parent;
    SelfReferenceIsCycle(catalog, p);
    assert refs[q][i] == p;
    CycleFromReference(refs, q, i);
  }

  /** Listed tables that reference each other are never ordered: as soon as all
      of them reference themselves, the check lets them pass and the sort does not end. */
  lemma CircleNeverEnds(catalog: Catalog, roots: seq<QName>, r: Result<SortOutcome, RunError>, p: QName, q: QName,
                        i: nat, j: nat)
    requires SetOf(roots) <= catalog.Keys && DistinctlyNamed(catalog, roots) && Delivers(catalog, roots, r)
    requires p in roots && q in roots && p != q
    requires i < |catalog[p].keys| && catalog[p].keys[i].parent == q
    requires j < |catalog[q].keys| && catalog[q].keys[j].parent == p
    ensures r.Ok? ==> r.value.NeverEnds?
    ensures r.Ok? <==> forall q <- roots :: RootPasses(catalog, q)
  {
    var refs := CatalogRefs(catalog);
    var graph := Among<QName>(refs, SetOf(roots));
    assert refs[p][i] == q && refs[q][j] == p;
    assert q in graph[p] && p in graph[q];
    ReachesRefl<QName>(graph, p);
    ReachesStep<QName>(graph, q, p, p);
  }

  // Two tables, each referencing itself and the other by columns that can be NULL.

  const ID := Field("id", false, "int", true, "PRI", false, false)

  function Reference(column: string): Field {
    Field(column, true, "int", false, "", false, false)
  }

  function PairTable(own: QName, other: QName): TableDef {
    TableDef(
      [ID, Reference("own"), Reference("other")],
      [ForeignKey("own", own, ["own"], ["id"]), ForeignKey("other", other, ["other"], ["id"])])
  }

  function A(): QName { QName("db", "a") }

  function B(): QName { QName("db", "b") }

  function PairCatalog(): Catalog {
    map[A() := PairTable(A(), B()), B() := PairTable(B(), A())]
  }

  lemma PairLoads()
    ensures PlainCatalog(PairCatalog()) && AllLoadable(PairCatalog(), [A(), B()])
  {
    var catalog := PairCatalog();
    forall q <- catalog, k <- catalog[q].keys
      ensures Resolvable(catalog, k)
    {
      assert k.parentColumns == ["id"] && FindField(catalog[k.parent].fields, "id") == Some(ID);
    }
  }

  lemma PairIsDistinctlyNamed()
    ensures DistinctlyNamed(PairCatalog(), [A(), B()])
  {
    assert Lower("a")[0] == 'a' && Lower("b")[0] == 'b';
    forall p | LedTo(PairCatalog(), [A(), B()], p)
      ensures p == A() || p == B()
    {
      assert p in CatalogRefs(PairCatalog());
    }
  }

  lemma PairPasses(q: QName)
    requires q == A() || q == B()
    ensures RootPasses(PairCatalog(), q)
  {
    var catalog := PairCatalog();
    assert catalog[q].keys[0].parent == q;
    assert FirstSelfKey(catalog[q].keys, q) == 0;
    assert !SameName("id", "own") && SameName("own", "own");
    assert FindField(catalog[q].fields, "own") == Some(Reference("own"));
    assert Located(catalog[q].fields, ["own"]) == [Reference("own")];
  }

  /** Such a pair passes every check, and the sort does not end. */
  lemma PairNeverEnds(r: Result<SortOutcome, RunError>)
    requires SetOf([A(), B()]) <= PairCatalog().Keys && Delivers(PairCatalog(), [A(), B()], r)
    ensures r.Ok? && r.value.NeverEnds?
  {
    PairIsDistinctlyNamed();
    forall q <- [A(), B()]
      ensures RootPasses(PairCatalog(), q)
    {
      PairPasses(q);
    }
    CircleNeverEnds(PairCatalog(), [A(), B()], r, A(), B(), 1, 1);
  }

  method PreparePair() returns (r: Result<SortOutcome, RunError>)
    ensures r.Ok? && r.value.NeverEnds?
  {
    PairLoads();
    assert Roots("db", ["a", "b"]) == [A(), B()];
    r := Prepare(PairCatalog(), "db", ["a", "b"], false, {});
    PairNeverEnds(r);
  }
}
