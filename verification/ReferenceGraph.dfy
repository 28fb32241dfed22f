/** The graph of "references" edges between tables, and the loop detection of
    db/constraint.go as a function on it. Nodes are whatever identifies a table:
    a heap object, or a name in the database catalogue. */
module ReferenceGraph {

  /** For every node, the nodes its constraints reference, in order. */
  type Refs<!N(==)> = map<N, seq<N>>

  predicate Closed<N>(refs: Refs<N>) {
    forall n <- refs, i | 0 <= i < |refs[n]| :: refs[n][i] in refs
  }

  lemma SameRefs<N>(a: Refs<N>, b: Refs<N>)
    requires a.Keys == b.Keys && forall n <- a :: a[n] == b[n]
    ensures a == b
  {
  }

  // Walks, reachability, cycles.

  ghost predicate IsWalk<N>(refs: Refs<N>, older w: seq<N>) {
    && (forall i | 0 <= i < |w| :: w[i] in refs)
    && (forall i | 0 < i < |w| :: w[i] in refs[w[i - 1]])
  }

  ghost predicate Connects<N>(refs: Refs<N>, a: N, b: N, older w: seq<N>) {
    IsWalk(refs, w) && w != [] && w[0] == a && w[|w| - 1] == b
  }

  /** `a` references `b` through zero or more edges. */
  ghost predicate Reaches<N>(refs: Refs<N>, a: N, b: N) {
    exists w: seq<N> :: Connects(refs, a, b, w)
  }

  /** No node references itself through one or more edges. */
  ghost predicate Acyclic<N>(refs: Refs<N>) {
    forall a <- refs, b <- refs | b in refs[a] :: !Reaches(refs, b, a)
  }

  lemma ReachesRefl<N>(refs: Refs<N>, a: N)
    requires a in refs
    ensures Reaches(refs, a, a)
  {
    assert Connects(refs, a, a, [a]);
  }

  lemma ReachesTrans<N>(refs: Refs<N>, a: N, b: N, c: N)
    requires Reaches(refs, a, b) && Reaches(refs, b, c)
    ensures Reaches(refs, a, c)
  {
    var w1: seq<N> :| Connects(refs, a, b, w1);
    var w2: seq<N> :| Connects(refs, b, c, w2);
    assert Connects(refs, a, c, w1 + w2[1..]);
  }

  lemma ReachesStep<N>(refs: Refs<N>, a: N, b: N, c: N)
    requires a in refs && b in refs[a] && Reaches(refs, b, c)
    ensures Reaches(refs, a, c)
  {
    var w: seq<N> :| Connects(refs, b, c, w);
    assert Connects(refs, a, c, [a] + w);
  }

  /** A set of nodes that contains everything its members reference contains
      everything they reach. */
  lemma {:induction false} ClosedSetHoldsReachable<N>(refs: Refs<N>, s: set<N>, w: seq<N>)
    requires IsWalk(refs, w) && w != [] && w[0] in s
    requires forall n, m | n in s && n in refs && m in refs[n] && m in refs :: m in s
    ensures forall i | 0 <= i < |w| :: w[i] in s
  {
    if |w| > 1 {
      var v := w[..|w| - 1];
      ClosedSetHoldsReachable(refs, s, v);
      assert v[|v| - 1] in s;
    }
  }

  // The loop detection: depth-first, carrying the names seen on the way down.

  ghost function Unvisited<N>(names: map<N, string>, path: seq<string>): set<string> {
    set s | s in names.Values && s !in path
  }

  lemma UnvisitedShrinks<N>(names: map<N, string>, path: seq<string>, n: N)
    requires n in names && names[n] !in path
    ensures Unvisited(names, path + [names[n]]) < Unvisited(names, path)
  {
    assert names[n] in Unvisited(names, path) && names[n] !in Unvisited(names, path + [names[n]]);
  }

  ghost predicate Looping<N>(names: map<N, string>, refs: Refs<N>, path: seq<string>, n: N)
    requires Closed(refs) && names.Keys == refs.Keys && n in refs
    decreases Unvisited(names, path)
  {
    names[n] in path ||
    (UnvisitedShrinks(names, path, n);
     exists i | 0 <= i < |refs[n]| :: Looping(names, refs, path + [names[n]], refs[n][i]))
  }

  ghost predicate LoopsFrom<N>(names: map<N, string>, refs: Refs<N>, n: N)
    requires Closed(refs) && names.Keys == refs.Keys && n in refs
  {
    Looping(names, refs, [], n)
  }

  /** One of `n`'s references leads into a loop of names. */
  ghost predicate LeadsIntoLoop<N>(names: map<N, string>, refs: Refs<N>, n: N)
    requires Closed(refs) && names.Keys == refs.Keys && n in refs
  {
    exists i | 0 <= i < |refs[n]| :: LoopsFrom(names, refs, refs[n][i])
  }

  lemma LoopingReference<N>(names: map<N, string>, refs: Refs<N>, n: N) returns (i: nat)
    requires Closed(refs) && names.Keys == refs.Keys && n in refs && LeadsIntoLoop(names, refs, n)
    ensures i < |refs[n]| && LoopsFrom(names, refs, refs[n][i])
  {
    i :| 0 <= i < |refs[n]| && LoopsFrom(names, refs, refs[n][i]);
  }

  lemma LeadsIntoLoopVia<N>(names: map<N, string>, refs: Refs<N>, n: N, i: nat)
    requires Closed(refs) && names.Keys == refs.Keys && n in refs
    requires i < |refs[n]| && LoopsFrom(names, refs, refs[n][i])
    ensures LeadsIntoLoop(names, refs, n)
  {
  }

  /** One of `n`'s references has `n`'s own name. */
  ghost predicate HasHome<N>(names: map<N, string>, refs: Refs<N>, n: N)
    requires Closed(refs) && names.Keys == refs.Keys && n in refs
  {
    exists i | 0 <= i < |refs[n]| :: names[refs[n][i]] == names[n]
  }

  /** Where the first node of that name stands; the length if there is none. */
  ghost function FirstNamed<N>(names: map<N, string>, targets: seq<N>, name: string): (i: nat)
    requires forall n <- targets :: n in names
    ensures i <= |targets| && (i < |targets| ==> names[targets[i]] == name)
    ensures forall k | 0 <= k < i :: names[targets[k]] != name
  {
    if targets == [] || names[targets[0]] == name then 0 else 1 + FirstNamed(names, targets[1..], name)
  }

  /** The first reference to the own name. */
  ghost function Home<N>(names: map<N, string>, refs: Refs<N>, n: N): (i: nat)
    requires Closed(refs) && names.Keys == refs.Keys && n in refs
    ensures i < |refs[n]| <==> HasHome(names, refs, n)
    ensures i <= |refs[n]| && (i < |refs[n]| ==> names[refs[n][i]] == names[n])
    ensures forall k | 0 <= k < i :: names[refs[n][k]] != names[n]
  {
    FirstNamed(names, refs[n], names[n])
  }

  /** More than one of `n`'s references has `n`'s own name. */
  ghost predicate TwoHomes<N>(names: map<N, string>, refs: Refs<N>, n: N)
    requires Closed(refs) && names.Keys == refs.Keys && n in refs
  {
    exists i, j | 0 <= i < j < |refs[n]| :: names[refs[n][i]] == names[n] == names[refs[n][j]]
  }

  /** Somewhere along `w` comes a name that is in `path` or belongs to an earlier node of `w`. */
  ghost predicate RepeatsAt<N>(names: map<N, string>, path: seq<string>, w: seq<N>, j: nat)
    requires j < |w| && forall i | 0 <= i < |w| :: w[i] in names
  {
    names[w[j]] in path || exists i | 0 <= i < j :: names[w[i]] == names[w[j]]
  }

  ghost predicate RepeatingWalk<N>(names: map<N, string>, refs: Refs<N>, path: seq<string>, n: N, older w: seq<N>)
    requires names.Keys == refs.Keys
  {
    IsWalk(refs, w) && w != [] && w[0] == n && exists j: nat | j < |w| :: RepeatsAt(names, path, w, j)
  }

  lemma {:induction false} LoopingHasWalk<N>(names: map<N, string>, refs: Refs<N>, path: seq<string>, n: N)
    returns (w: seq<N>)
    requires Closed(refs) && names.Keys == refs.Keys && n in refs
    requires Looping(names, refs, path, n)
    ensures RepeatingWalk(names, refs, path, n, w)
    decreases Unvisited(names, path)
  {
    if names[n] in path {
      w := [n];
      assert RepeatsAt(names, path, w, 0);
    } else {
      UnvisitedShrinks(names, path, n);
      var i :| 0 <= i < |refs[n]| && Looping(names, refs, path + [names[n]], refs[n][i]);
      var v := LoopingHasWalk(names, refs, path + [names[n]], refs[n][i]);
      var j: nat :| j < |v| && RepeatsAt(names, path + [names[n]], v, j);
      w := [n] + v;
      assert w[j + 1] == v[j];
      if names[v[j]] in path {
      } else if names[v[j]] == names[n] {
        assert w[0] == n;
      } else {
        var k :| 0 <= k < j && names[v[k]] == names[v[j]];
        assert w[k + 1] == v[k];
      }
      assert RepeatsAt(names, path, w, j + 1);
    }
  }

  lemma {:induction false} WalkIsDetected<N>(names: map<N, string>, refs: Refs<N>, path: seq<string>, w: seq<N>, j: nat)
    requires Closed(refs) && names.Keys == refs.Keys
    requires IsWalk(refs, w) && j < |w| && RepeatsAt(names, path, w, j)
    ensures Looping(names, refs, path, w[0])
    decreases |w|
  {
    var n := w[0];
    if names[n] !in path {
      assert j > 0;
      var v := w[1..];
      assert v[j - 1] == w[j];
      var seen := path + [names[n]];
      assert RepeatsAt(names, seen, v, j - 1) by {
        if names[w[j]] !in seen {
          var i :| 0 <= i < j && names[w[i]] == names[w[j]];
          assert i > 0 && v[i - 1] == w[i];
        }
      }
      WalkIsDetected(names, refs, seen, v, j - 1);
      var i :| 0 <= i < |refs[n]| && refs[n][i] == w[1];
    }
  }

  /** Sound and complete: the traversal answers true exactly when some walk
      from the start node meets a table name twice. */
  lemma LoopingIffNameRepeats<N>(names: map<N, string>, refs: Refs<N>, n: N)
    requires Closed(refs) && names.Keys == refs.Keys && n in refs
    ensures Looping(names, refs, [], n) <==> exists w: seq<N> :: RepeatingWalk(names, refs, [], n, w)
  {
    if Looping(names, refs, [], n) {
      var w := LoopingHasWalk(names, refs, [], n);
    }
    if w: seq<N> :| RepeatingWalk(names, refs, [], n, w) {
      var j: nat :| j < |w| && RepeatsAt(names, [], w, j);
      WalkIsDetected(names, refs, [], w, j);
    }
  }

  ghost predicate UniqueNames<N>(names: map<N, string>) {
    forall a <- names, b <- names | names[a] == names[b] :: a == b
  }

  /** `n` leads to an edge that lies on a cycle. */
  ghost predicate CycleReachable<N>(refs: Refs<N>, n: N) {
    exists a <- refs, b <- refs | b in refs[a] :: Reaches(refs, n, a) && Reaches(refs, b, a)
  }

  lemma SubwalkReaches<N>(refs: Refs<N>, w: seq<N>, i: nat, j: nat)
    requires IsWalk(refs, w) && i <= j < |w|
    ensures Reaches(refs, w[i], w[j])
  {
    var v := w[i..j + 1];
    assert forall k | 0 <= k < |v| :: v[k] == w[i + k];
    assert Connects(refs, w[i], w[j], v);
  }

  /** When no two tables share a name, the traversal answers true exactly when
      the start node leads to a cycle of references. */
  lemma LoopingIffCycleReachable<N>(names: map<N, string>, refs: Refs<N>, n: N)
    requires Closed(refs) && names.Keys == refs.Keys && n in refs && UniqueNames(names)
    ensures Looping(names, refs, [], n) <==> CycleReachable(refs, n)
  {
    if Looping(names, refs, [], n) {
      var w := LoopingHasWalk(names, refs, [], n);
      var j: nat :| j < |w| && RepeatsAt(names, [], w, j);
      var i: nat :| i < j && names[w[i]] == names[w[j]];
      SubwalkReaches(refs, w, 0, i);
      SubwalkReaches(refs, w, i + 1, j);
      assert w[i + 1] in refs[w[i]] && w[j] == w[i];
    }
    if CycleReachable(refs, n) {
      var a, b :| a in refs && b in refs && b in refs[a] && Reaches(refs, n, a) && Reaches(refs, b, a);
      var w1: seq<N> :| Connects(refs, n, a, w1);
      var w2: seq<N> :| Connects(refs, b, a, w2);
      var w, j := w1 + w2, |w1| + |w2| - 1;
      assert w[|w1| - 1] == a && w[j] == a;
      assert RepeatsAt(names, [], w, j);
      WalkIsDetected(names, refs, [], w, j);
    }
  }

  /** Whether the loop starts at the node itself or behind one of its
      references makes no difference. */
  lemma LeadsIntoLoopIffCycle<N>(names: map<N, string>, refs: Refs<N>, n: N)
    requires Closed(refs) && names.Keys == refs.Keys && n in refs && UniqueNames(names)
    ensures LeadsIntoLoop(names, refs, n) <==> CycleReachable(refs, n)
  {
    forall i | 0 <= i < |refs[n]|
      ensures LoopsFrom(names, refs, refs[n][i]) <==> CycleReachable(refs, refs[n][i])
    {
      LoopingIffCycleReachable(names, refs, refs[n][i]);
    }
    if CycleReachable(refs, n) {
      var i := CycleBehindReference(refs, n);
      LeadsIntoLoopVia(names, refs, n, i);
    }
    if LeadsIntoLoop(names, refs, n) {
      var i := LoopingReference(names, refs, n);
      CycleFromReference(refs, n, i);
    }
  }

  lemma CycleFromReference<N>(refs: Refs<N>, n: N, i: nat)
    requires n in refs && i < |refs[n]| && CycleReachable(refs, refs[n][i])
    ensures CycleReachable(refs, n)
  {
    var a, b :| a in refs && b in refs && b in refs[a] && Reaches(refs, refs[n][i], a) && Reaches(refs, b, a);
    ReachesStep(refs, n, refs[n][i], a);
  }

  lemma CycleBehindReference<N>(refs: Refs<N>, n: N) returns (i: nat)
    requires Closed(refs) && n in refs && CycleReachable(refs, n)
    ensures i < |refs[n]| && CycleReachable(refs, refs[n][i])
  {
    var a, b :| a in refs && b in refs && b in refs[a] && Reaches(refs, n, a) && Reaches(refs, b, a);
    var w: seq<N> :| Connects(refs, n, a, w);
    if |w| == 1 {
      i :| 0 <= i < |refs[n]| && refs[n][i] == b;
    } else {
      i :| 0 <= i < |refs[n]| && refs[n][i] == w[1];
      SubwalkReaches(refs, w, 1, |w| - 1);
    }
    assert CycleReachable(refs, refs[n][i]);
  }

  lemma AcyclicIffNoneLooping<N>(names: map<N, string>, refs: Refs<N>)
    requires Closed(refs) && names.Keys == refs.Keys && UniqueNames(names)
    ensures Acyclic(refs) <==> forall n <- refs :: !Looping(names, refs, [], n)
  {
    forall n <- refs
      ensures Looping(names, refs, [], n) <==> CycleReachable(refs, n)
    {
      LoopingIffCycleReachable(names, refs, n);
      if CycleReachable(refs, n) {
        var a, b :| a in refs && b in refs && b in refs[a] && Reaches(refs, n, a) && Reaches(refs, b, a);
      }
    }
    if !Acyclic(refs) {
      var a, b :| a in refs && b in refs && b in refs[a] && Reaches(refs, b, a);
      ReachesRefl(refs, a);
      assert CycleReachable(refs, a);
    }
  }

  ghost predicate ReferencesInto<N>(refs: Refs<N>, s: set<N>, n: N) {
    n in refs && exists i | 0 <= i < |refs[n]| :: refs[n][i] in s
  }

  /** Every member references a member. */
  ghost predicate Endless<N>(refs: Refs<N>, s: set<N>) {
    s <= refs.Keys && forall n {:trigger ReferencesInto(refs, s, n)} | n in s :: ReferencesInto(refs, s, n)
  }

  /** If every member of `s` references a member of `s`, every member is reported as looping. */
  lemma {:induction false} EndlessSetLoops<N>(names: map<N, string>, refs: Refs<N>, s: set<N>, path: seq<string>, n: N)
    requires Closed(refs) && names.Keys == refs.Keys
    requires n in s && Endless(refs, s)
    ensures Looping(names, refs, path, n)
    decreases Unvisited(names, path)
  {
    if names[n] !in path {
      assert ReferencesInto(refs, s, n);
      var i :| 0 <= i < |refs[n]| && refs[n][i] in s;
      UnvisitedShrinks(names, path, n);
      EndlessSetLoops(names, refs, s, path + [names[n]], refs[n][i]);
    }
  }

  // Moving references of a node to its own name.

  /** The reference is the same, or one of a node to its own name before and after. */
  ghost predicate KeptOrHome<N>(names: map<N, string>, refs: Refs<N>, more: map<N, string>, after: Refs<N>, n: N,
                                i: nat)
    requires n in names && n in refs && i < |refs[n]| && refs[n][i] in names
    requires n in after && i < |after[n]| && after[n][i] in more
  {
    after[n][i] == refs[n][i] || names[refs[n][i]] == names[n] == more[after[n][i]]
  }

  /** More nodes, and some references of nodes to their own name moved to other
      nodes of that name. */
  ghost predicate HomesMoved<N>(names: map<N, string>, refs: Refs<N>, more: map<N, string>, after: Refs<N>)
    requires Closed(refs) && names.Keys == refs.Keys && Closed(after) && more.Keys == after.Keys
  {
    && (forall n <- refs :: n in after && more[n] == names[n] && |after[n]| == |refs[n]|)
    && forall n, i {:trigger KeptOrHome(names, refs, more, after, n, i)} | n in refs && 0 <= i < |refs[n]| ::
         KeptOrHome(names, refs, more, after, n, i)
  }

  lemma NoHomesMoved<N>(names: map<N, string>, refs: Refs<N>)
    requires Closed(refs) && names.Keys == refs.Keys
    ensures HomesMoved(names, refs, names, refs)
  {
  }

  lemma HomesMovedTwice<N>(names: map<N, string>, refs: Refs<N>, more: map<N, string>, middle: Refs<N>,
                           most: map<N, string>, after: Refs<N>)
    requires Closed(refs) && names.Keys == refs.Keys && Closed(middle) && more.Keys == middle.Keys
    requires Closed(after) && most.Keys == after.Keys
    requires HomesMoved(names, refs, more, middle) && HomesMoved(more, middle, most, after)
    ensures HomesMoved(names, refs, most, after)
  {
    forall n, i | n in refs && 0 <= i < |refs[n]|
      ensures KeptOrHome(names, refs, most, after, n, i)
    {
      assert KeptOrHome(names, refs, more, middle, n, i);
      assert KeptOrHome(more, middle, most, after, n, i);
    }
  }

  /** The search from an old node does not notice: both ends of a moved
      reference are names it has already seen. */
  lemma {:induction false} MovingHomesKeepsLoops<N>(names: map<N, string>, refs: Refs<N>, more: map<N, string>,
                                                    after: Refs<N>, path: seq<string>, n: N)
    requires Closed(refs) && names.Keys == refs.Keys && Closed(after) && more.Keys == after.Keys
    requires HomesMoved(names, refs, more, after) && n in refs
    ensures n in after && (Looping(more, after, path, n) <==> Looping(names, refs, path, n))
    decreases Unvisited(names, path)
  {
    if names[n] !in path {
      var seen := path + [names[n]];
      UnvisitedShrinks(names, path, n);
      UnvisitedShrinks(more, path, n);
      forall i | 0 <= i < |refs[n]|
        ensures Looping(more, after, seen, after[n][i]) <==> Looping(names, refs, seen, refs[n][i])
      {
        assert KeptOrHome(names, refs, more, after, n, i);
        if after[n][i] == refs[n][i] {
          MovingHomesKeepsLoops(names, refs, more, after, seen, refs[n][i]);
        }
      }
    }
  }

  /** So no old table is judged differently. */
  lemma MovingHomesKeepsVerdict<N>(names: map<N, string>, refs: Refs<N>, more: map<N, string>, after: Refs<N>, n: N)
    requires Closed(refs) && names.Keys == refs.Keys && Closed(after) && more.Keys == after.Keys
    requires HomesMoved(names, refs, more, after) && n in refs
    ensures n in after && (HasHome(more, after, n) <==> HasHome(names, refs, n))
    ensures !HasHome(names, refs, n) ==> (LeadsIntoLoop(more, after, n) <==> LeadsIntoLoop(names, refs, n))
    ensures Home(more, after, n) == Home(names, refs, n)
  {
    forall i | 0 <= i < |refs[n]|
      ensures more[after[n][i]] == names[n] <==> names[refs[n][i]] == names[n]
      ensures names[refs[n][i]] != names[n] ==>
        (LoopsFrom(more, after, after[n][i]) <==> LoopsFrom(names, refs, refs[n][i]))
    {
      assert KeptOrHome(names, refs, more, after, n, i);
      if after[n][i] == refs[n][i] {
        MovingHomesKeepsLoops(names, refs, more, after, [], refs[n][i]);
      }
    }
  }

  // The references among some of the nodes.

  function OthersAmong<N(==)>(targets: seq<N>, n: N, s: set<N>): (others: seq<N>)
    ensures forall m <- others :: m in targets && m in s && m != n
    ensures forall m <- targets | m in s && m != n :: m in others
  {
    if targets == [] then []
    else (if targets[0] in s && targets[0] != n then [targets[0]] else []) + OthersAmong(targets[1..], n, s)
  }

  /** The graph of the nodes in `s`, without references of a node to itself. */
  function Among<N>(refs: Refs<N>, s: set<N>): (graph: Refs<N>)
    requires s <= refs.Keys
    ensures graph.Keys == s && Closed(graph)
  {
    map n | n in s :: OthersAmong(refs[n], n, s)
  }

  lemma AmongReaches<N>(refs: Refs<N>, s: set<N>, a: N, b: N)
    requires s <= refs.Keys && Reaches(Among(refs, s), a, b)
    ensures Reaches(refs, a, b)
  {
    var graph := Among(refs, s);
    var w: seq<N> :| Connects(graph, a, b, w);
    forall i | 0 < i < |w|
      ensures w[i] in refs[w[i - 1]]
    {
      assert w[i] in graph[w[i - 1]];
    }
    assert Connects(refs, a, b, w);
  }

  /** A cycle among some nodes lies behind each node on it. */
  lemma CycleAmongIsCycle<N>(refs: Refs<N>, s: set<N>) returns (n: N)
    requires s <= refs.Keys && !Acyclic(Among(refs, s))
    ensures n in s && CycleReachable(refs, n)
  {
    var graph := Among(refs, s);
    var b: N;
    n, b :| n in graph && b in graph && b in graph[n] && Reaches(graph, b, n);
    AmongReaches(refs, s, b, n);
    ReachesRefl(refs, n);
    assert b in refs[n];
    assert Reaches(refs, n, n) && Reaches(refs, b, n);
  }

  // Adding one reference.

  function AddEdge<N>(refs: Refs<N>, child: N, parent: N): Refs<N>
    requires child in refs
  {
    refs[child := refs[child] + [parent]]
  }

  /** A walk that may use the new edge either avoids it, or splits at its first
      and last use. */
  lemma {:induction false} WalkAfterAdding<N>(refs: Refs<N>, child: N, parent: N, w: seq<N>)
    requires child in refs && parent in refs
    requires IsWalk(AddEdge(refs, child, parent), w) && w != []
    ensures
      var a, b := w[0], w[|w| - 1];
      Reaches(refs, a, b) || (Reaches(refs, a, child) && Reaches(refs, parent, b))
    decreases |w|
  {
    var a, b := w[0], w[|w| - 1];
    if |w| == 1 {
      ReachesRefl(refs, a);
    } else {
      var v := w[1..];
      var m := v[0];
      WalkAfterAdding(refs, child, parent, v);
      if m in refs[a] {
        if Reaches(refs, m, b) {
          ReachesStep(refs, a, m, b);
        } else {
          ReachesStep(refs, a, m, child);
        }
      } else {
        assert a == child && m == parent;
        ReachesRefl(refs, child);
      }
    }
  }

  lemma ReachesSurvivesAdding<N>(refs: Refs<N>, child: N, parent: N, a: N, b: N)
    requires child in refs && parent in refs && Reaches(refs, a, b)
    ensures Reaches(AddEdge(refs, child, parent), a, b)
  {
    var w: seq<N> :| Connects(refs, a, b, w);
    assert Connects(AddEdge(refs, child, parent), a, b, w);
  }

  /** Adding `child` -> `parent` keeps a graph acyclic exactly when `parent`
      does not already lead to `child`. */
  lemma AddEdgeAcyclic<N>(refs: Refs<N>, child: N, parent: N)
    requires child in refs && parent in refs && Acyclic(refs)
    ensures Acyclic(AddEdge(refs, child, parent)) <==> !Reaches(refs, parent, child)
  {
    var more := AddEdge(refs, child, parent);
    assert parent in more[child];
    if Reaches(refs, parent, child) {
      ReachesSurvivesAdding(refs, child, parent, parent, child);
    } else {
      forall a <- more, b <- more | b in more[a]
        ensures !Reaches(more, b, a)
      {
        if Reaches(more, b, a) {
          var w: seq<N> :| Connects(more, b, a, w);
          WalkAfterAdding(refs, child, parent, w);
          if b in refs[a] {
            ReachesStep(refs, a, b, child);
            ReachesTrans(refs, parent, a, child);
          }
        }
      }
    }
  }

  // The same graph under other names.

  /** `f` renames the nodes of `refs`, one to one, into a part of `more` that
      nothing leads out of. */
  ghost predicate Renames<N, M>(refs: Refs<N>, more: Refs<M>, f: map<N, M>) {
    && f.Keys == refs.Keys
    && (forall a <- f, b <- f | f[a] == f[b] :: a == b)
    && (forall n <- refs :: f[n] in more && |more[f[n]]| == |refs[n]|)
    && forall n <- refs, i | 0 <= i < |refs[n]| :: refs[n][i] in refs && more[f[n]][i] == f[refs[n][i]]
  }

  lemma {:induction false} WalkFromRenamed<N, M>(refs: Refs<N>, more: Refs<M>, f: map<N, M>, a: N, v: seq<M>)
    returns (w: seq<N>)
    requires Renames(refs, more, f) && a in refs && IsWalk(more, v) && v != [] && v[0] == f[a]
    ensures IsWalk(refs, w) && |w| == |v| && w[0] == a && forall i | 0 <= i < |w| :: f[w[i]] == v[i]
  {
    if |v| == 1 {
      w := [a];
    } else {
      var i :| 0 <= i < |more[f[a]]| && more[f[a]][i] == v[1];
      var u := WalkFromRenamed(refs, more, f, refs[a][i], v[1..]);
      w := [a] + u;
    }
  }

  lemma WalkToRenamed<N, M>(refs: Refs<N>, more: Refs<M>, f: map<N, M>, w: seq<N>) returns (v: seq<M>)
    requires Renames(refs, more, f) && IsWalk(refs, w)
    ensures IsWalk(more, v) && |v| == |w| && forall i | 0 <= i < |w| :: f[w[i]] == v[i]
  {
    v := seq(|w|, i requires 0 <= i < |w| => f[w[i]]);
    forall i | 0 < i < |v|
      ensures v[i] in more[v[i - 1]]
    {
      var k :| 0 <= k < |refs[w[i - 1]]| && refs[w[i - 1]][k] == w[i];
      assert more[f[w[i - 1]]][k] == f[w[i]];
    }
  }

  lemma ReachesRenamed<N, M>(refs: Refs<N>, more: Refs<M>, f: map<N, M>, a: N, b: N)
    requires Renames(refs, more, f) && a in refs && b in refs
    ensures Reaches(refs, a, b) <==> Reaches(more, f[a], f[b])
  {
    if Reaches(refs, a, b) {
      var w: seq<N> :| Connects(refs, a, b, w);
      var v := WalkToRenamed(refs, more, f, w);
      assert Connects(more, f[a], f[b], v);
    }
    if Reaches(more, f[a], f[b]) {
      var v: seq<M> :| Connects(more, f[a], f[b], v);
      var w := WalkFromRenamed(refs, more, f, a, v);
      assert Connects(refs, a, b, w);
    }
  }

  lemma CycleRenamed<N, M>(refs: Refs<N>, more: Refs<M>, f: map<N, M>, n: N)
    requires Renames(refs, more, f) && n in refs
    ensures CycleReachable(refs, n) <==> CycleReachable(more, f[n])
  {
    if CycleReachable(refs, n) {
      var a, b :| a in refs && b in refs && b in refs[a] && Reaches(refs, n, a) && Reaches(refs, b, a);
      var i :| 0 <= i < |refs[a]| && refs[a][i] == b;
      assert more[f[a]][i] == f[b];
      ReachesRenamed(refs, more, f, n, a);
      ReachesRenamed(refs, more, f, b, a);
    }
    if CycleReachable(more, f[n]) {
      var x, y :| x in more && y in more && y in more[x] && Reaches(more, f[n], x) && Reaches(more, y, x);
      var v: seq<M> :| Connects(more, f[n], x, v);
      var w := WalkFromRenamed(refs, more, f, n, v);
      var a := w[|w| - 1];
      var i :| 0 <= i < |more[x]| && more[x][i] == y;
      ReachesRenamed(refs, more, f, n, a);
      ReachesRenamed(refs, more, f, refs[a][i], a);
    }
  }

  lemma CycleFreeRenamed<N, M>(refs: Refs<N>, more: Refs<M>, f: map<N, M>)
    requires Renames(refs, more, f) && Acyclic(more)
    ensures Acyclic(refs)
  {
    forall a <- refs, b <- refs | b in refs[a]
      ensures !Reaches(refs, b, a)
    {
      var i :| 0 <= i < |refs[a]| && refs[a][i] == b;
      assert more[f[a]][i] == f[b];
      ReachesRenamed(refs, more, f, b, a);
    }
  }

  /** Renaming all nodes of a graph keeps it acyclic. */
  lemma AcyclicRenamed<N, M>(refs: Refs<N>, more: Refs<M>, f: map<N, M>)
    requires Renames(refs, more, f) && more.Keys == f.Values
    ensures Acyclic(refs) <==> Acyclic(more)
  {
    if Acyclic(more) {
      CycleFreeRenamed(refs, more, f);
    }
    if Acyclic(refs) {
      forall x <- more, y <- more | y in more[x]
        ensures !Reaches(more, y, x)
      {
        var a :| a in f && f[a] == x;
        var i :| 0 <= i < |more[x]| && more[x][i] == y;
        assert y == f[refs[a][i]];
        ReachesRenamed(refs, more, f, refs[a][i], a);
      }
    }
  }

  lemma {:induction false} OthersRenamed<N, M>(targets: seq<N>, renamed: seq<M>, f: map<N, M>, n: N, s: set<N>,
                                               fs: set<M>)
    requires |targets| == |renamed| && forall i | 0 <= i < |targets| :: targets[i] in f && renamed[i] == f[targets[i]]
    requires n in f && (forall a <- f, b <- f | f[a] == f[b] :: a == b)
    requires s <= f.Keys && fs == set a <- s :: f[a]
    ensures
      var others, more := OthersAmong(targets, n, s), OthersAmong(renamed, f[n], fs);
      |others| == |more| && forall i | 0 <= i < |others| :: others[i] in f && more[i] == f[others[i]]
  {
    if targets != [] {
      OthersRenamed(targets[1..], renamed[1..], f, n, s, fs);
      assert targets[0] in s <==> renamed[0] in fs;
    }
  }

  /** Restricting a renamed graph is renaming the restricted one. */
  lemma AmongRenamed<N, M>(refs: Refs<N>, more: Refs<M>, f: map<N, M>, s: set<N>, fs: set<M>)
    requires Renames(refs, more, f) && s <= refs.Keys && fs == set a <- s :: f[a]
    ensures fs <= more.Keys && (Acyclic(Among(refs, s)) <==> Acyclic(Among(more, fs)))
  {
    var g := map a | a in s :: f[a];
    forall n <- s
      ensures |Among(more, fs)[f[n]]| == |Among(refs, s)[n]|
      ensures forall i | 0 <= i < |Among(refs, s)[n]| :: Among(more, fs)[f[n]][i] == f[Among(refs, s)[n][i]]
    {
      OthersRenamed(refs[n], more[f[n]], f, n, s, fs);
    }
    assert g.Values == fs;
    AcyclicRenamed(Among(refs, s), Among(more, fs), g);
  }
}
