/**
  Ancestor discovery over a dependency graph (philosofool/data_science/graph.py).

  A graph maps a node to the nodes it directly depends on, in iteration order.
  `GetAncestors` is a depth-first search that threads ONE mutable `seen` set
  through all of its recursive calls, exactly as the Python function does.
*/
module Graph {

  /** `Mapping[node, Iterable[node]]`: the predecessors of each node, in order. */
  type Graph<T> = map<T, seq<T>>

  /** `graph.get(v, set())`: a node that is not a key of the graph is a leaf. */
  function Predecessors<T>(graph: Graph<T>, v: T): seq<T>
  {
    if v in graph then graph[v] else []
  }

  /** Every node that occurs as some node's predecessor; bounds the search. */
  ghost function Nodes<T>(graph: Graph<T>): set<T>
  {
    set v, p | v in graph && p in graph[v] :: p
  }

  /** `w` follows dependency edges: each element is a predecessor of the one before it. */
  ghost predicate IsWalk<T>(graph: Graph<T>, w: seq<T>)
  {
    forall i :: 0 <= i < |w| - 1 ==> w[i + 1] in Predecessors(graph, w[i])
  }

  /** `w` leads from `from` to `to` in one or more steps and never steps onto a node of `avoid`
      (the start itself may be in `avoid`). */
  ghost predicate AvoidingWalk<T>(graph: Graph<T>, w: seq<T>, from: T, to: T, avoid: set<T>)
  {
    && |w| >= 2
    && w[0] == from
    && w[|w| - 1] == to
    && IsWalk(graph, w)
    && forall i :: 1 <= i < |w| ==> w[i] !in avoid
  }

  ghost predicate ReachableAvoiding<T(!new)>(graph: Graph<T>, from: T, to: T, avoid: set<T>)
  {
    exists w :: AvoidingWalk(graph, w, from, to, avoid)
  }

  /** `to` is an ancestor of `from`: reachable by following one or more dependency edges. */
  ghost predicate Reachable<T(!new)>(graph: Graph<T>, from: T, to: T)
  {
    ReachableAvoiding(graph, from, to, {})
  }

  /** What the search guarantees about the set `found` it leaves behind, started at `value`
      with the caller's `initial` set: nothing of `initial` is lost, every direct predecessor
      of `value` is found, and every node the search added had all its predecessors found. */
  ghost predicate Expanded<T>(graph: Graph<T>, value: T, initial: set<T>, found: set<T>)
  {
    && initial <= found
    && (forall p :: p in Predecessors(graph, value) ==> p in found)
    && ClosedBeyond(graph, initial, found)
  }

  ghost predicate ClosedBeyond<T>(graph: Graph<T>, initial: set<T>, found: set<T>)
  {
    forall x, p :: x in found && x !in initial && p in Predecessors(graph, x) ==> p in found
  }

  /** Every node the search added is reachable from `value` while avoiding `initial`. */
  ghost predicate Sound<T(!new)>(graph: Graph<T>, value: T, initial: set<T>, found: set<T>)
  {
    forall x :: x in found && x !in initial ==> ReachableAvoiding(graph, value, x, initial)
  }

  /** The mutable `seen` set that the search shares between its recursive calls. */
  class SeenSet<T(==)> {
    var items: set<T>

    constructor (items: set<T>)
      ensures this.items == items
    {
      this.items := items;
    }
  }

  /**
    `get_ancestors(value, graph, seen)`. `seen == null` stands for Python's `None`.
    A null or empty `seen` is replaced by a fresh set (`seen or set()`), so the caller's
    empty set is left untouched; a non-empty one is extended in place and returned, and
    its members are never expanded. The result holds the initial set plus exactly the
    nodes reachable from `value` without passing through it; in particular `value` is in
    the result only when it was there already or lies on a cycle back to itself.
  */
  method GetAncestors<T(==, !new)>(value: T, graph: Graph<T>, seen: SeenSet?<T>) returns (r: SeenSet<T>)
    modifies seen
    decreases if seen == null || seen.items == {} then |Nodes(graph)| + 1 else |Nodes(graph) - seen.items|
    ensures seen != null && old(seen.items) != {} ==> r == seen
    ensures seen == null || old(seen.items) == {} ==> fresh(r)
    ensures seen != null && old(seen.items) == {} ==> seen.items == {}
    ensures seen == null ==> Expanded(graph, value, {}, r.items) && Sound(graph, value, {}, r.items)
    ensures seen != null ==>
      Expanded(graph, value, old(seen.items), r.items) && Sound(graph, value, old(seen.items), r.items)
    ensures seen == null ==> forall y :: y in r.items <==> Reachable(graph, value, y)
    ensures seen != null ==>
      forall y :: y in r.items <==> y in old(seen.items) || ReachableAvoiding(graph, value, y, old(seen.items))
  {
    if seen == null || seen.items == {} {
      r := new SeenSet({});
    } else {
      r := seen;
    }
    ghost var initial := r.items;
    var predecessors := Predecessors(graph, value);
    if |predecessors| > 0 {
      var i := 0;
      while i < |predecessors|
        invariant 0 <= i <= |predecessors|
        invariant seen != null && old(seen.items) != {} ==> r == seen
        invariant seen == null || old(seen.items) == {} ==> fresh(r)
        invariant seen != null && old(seen.items) == {} ==> seen.items == {}
        invariant initial <= r.items
        invariant forall j :: 0 <= j < i ==> predecessors[j] in r.items
        invariant ClosedBeyond(graph, initial, r.items)
        invariant Sound(graph, value, initial, r.items)
      {
        var predecessor := predecessors[i];
        if predecessor !in r.items {
          ghost var before := r.items;
          r.items := r.items + {predecessor};
          NodesBound(graph, value, predecessor, initial, before, r.items);
          ghost var atCall := r.items;
          var sub := GetAncestors(predecessor, graph, r);
          r.items := r.items + sub.items;
          ExtendSound(graph, value, predecessor, initial, atCall, r.items);
        }
        i := i + 1;
      }
    }
    ExpandedIsExact(graph, value, initial, r.items);
  }

  /** The recursive call is on a strictly smaller set of unvisited nodes. */
  lemma NodesBound<T>(graph: Graph<T>, value: T, p: T, initial: set<T>, before: set<T>, after: set<T>)
    requires p in Predecessors(graph, value) && p !in before && after == before + {p}
    requires initial <= before
    ensures |Nodes(graph) - after| < |Nodes(graph) - initial|
    ensures |Nodes(graph) - after| <= |Nodes(graph)|
  {
    assert p in Nodes(graph);
    var n := Nodes(graph);
    assert n - before == (n - after) + {p};
    SubsetCard(n - before, n - initial);
    SubsetCard(n - after, n);
  }

  lemma SubsetCard<T>(a: set<T>, b: set<T>)
    requires a <= b
    ensures |a| <= |b|
  {
    assert b == a + (b - a);
  }

  /** After the recursive call on `p`, the nodes it added are reachable from `value` too. */
  lemma ExtendSound<T(!new)>(graph: Graph<T>, value: T, p: T, initial: set<T>, atCall: set<T>, found: set<T>)
    requires p in Predecessors(graph, value) && p !in initial && p in atCall && initial <= atCall
    requires Sound(graph, value, initial, atCall - {p})
    requires Sound(graph, p, atCall, found)
    requires atCall <= found
    ensures Sound(graph, value, initial, found)
  {
    forall x | x in found && x !in initial
      ensures ReachableAvoiding(graph, value, x, initial)
    {
      if x == p {
        assert AvoidingWalk(graph, [value, p], value, p, initial);
      } else if x in atCall {
        assert x in atCall - {p};
      } else {
        var w :| AvoidingWalk(graph, w, p, x, atCall);
        PrependStep(graph, value, w, p, x, initial, atCall);
      }
    }
  }

  lemma PrependStep<T(!new)>(graph: Graph<T>, value: T, w: seq<T>, p: T, x: T, initial: set<T>, inner: set<T>)
    requires p in Predecessors(graph, value) && p !in initial && initial <= inner
    requires AvoidingWalk(graph, w, p, x, inner)
    ensures ReachableAvoiding(graph, value, x, initial)
  {
    var w' := [value] + w;
    assert forall i :: 1 <= i < |w'| ==> w'[i] == w[i - 1];
    assert AvoidingWalk(graph, w', value, x, initial);
  }

  /** A set that satisfies `Expanded` contains every node reachable while avoiding `initial`. */
  lemma {:induction false} ExpandedContainsReachable<T(!new)>(graph: Graph<T>, value: T, initial: set<T>, found: set<T>, y: T)
    requires Expanded(graph, value, initial, found)
    requires ReachableAvoiding(graph, value, y, initial)
    ensures y in found
  {
    var w :| AvoidingWalk(graph, w, value, y, initial);
    WalkInFound(graph, w, value, y, initial, found, |w| - 1);
  }

  lemma {:induction false} WalkInFound<T>(graph: Graph<T>, w: seq<T>, value: T, y: T, initial: set<T>, found: set<T>, k: nat)
    requires Expanded(graph, value, initial, found)
    requires AvoidingWalk(graph, w, value, y, initial)
    requires 1 <= k < |w|
    ensures w[k] in found
  {
    if k == 1 {
      assert w[1] in Predecessors(graph, w[0]);
    } else {
      WalkInFound(graph, w, value, y, initial, found, k - 1);
      assert w[k] in Predecessors(graph, w[k - 1]);
    }
  }

  /** `Expanded` and `Sound` together pin the result down exactly. */
  lemma ExpandedIsExact<T(!new)>(graph: Graph<T>, value: T, initial: set<T>, found: set<T>)
    requires Expanded(graph, value, initial, found) && Sound(graph, value, initial, found)
    ensures forall y :: y in found <==> y in initial || ReachableAvoiding(graph, value, y, initial)
  {
    forall y | ReachableAvoiding(graph, value, y, initial)
      ensures y in found
    {
      ExpandedContainsReachable(graph, value, initial, found, y);
    }
  }

  /** A node that is not a key of the graph is a leaf: nothing is reachable from it, so the
      search returns the initial set unchanged (an empty one when there was none). */
  lemma LeafHasNoAncestors<T(!new)>(graph: Graph<T>, value: T, avoid: set<T>, y: T)
    requires value !in graph
    ensures !ReachableAvoiding(graph, value, y, avoid)
  {
    forall w | |w| >= 2 && w[0] == value
      ensures !AvoidingWalk(graph, w, value, y, avoid)
    {
      assert w[0 + 1] !in Predecessors(graph, w[0]);
    }
  }

  /** Ancestry is transitive: an ancestor of an ancestor is an ancestor. */
  lemma {:induction false} ReachableTransitive<T(!new)>(graph: Graph<T>, a: T, b: T, c: T)
    requires Reachable(graph, a, b) && Reachable(graph, b, c)
    ensures Reachable(graph, a, c)
  {
    var u :| AvoidingWalk(graph, u, a, b, {});
    var v :| AvoidingWalk(graph, v, b, c, {});
    var w := u + v[1..];
    assert forall i :: 0 <= i < |u| ==> w[i] == u[i];
    assert forall i :: |u| <= i < |w| ==> w[i] == v[i - |u| + 1];
    assert AvoidingWalk(graph, w, a, c, {});
  }

  /** The graph of the repository's own test. */
  function ExampleGraph(): Graph<string>
  {
    map["a" := ["b", "c", "d"], "c" := ["b", "e"], "d" := ["e", "f"]]
  }

  /** From "a" the ancestors are exactly b, c, d, e and f; "a" is not its own ancestor. */
  lemma ExampleAncestors(y: string)
    ensures Reachable(ExampleGraph(), "a", y) <==> y in {"b", "c", "d", "e", "f"}
  {
    var g := ExampleGraph();
    var found := {"b", "c", "d", "e", "f"};
    assert Predecessors(g, "a") == ["b", "c", "d"];
    assert Predecessors(g, "c") == ["b", "e"];
    assert Predecessors(g, "d") == ["e", "f"];
    assert Expanded(g, "a", {}, found);
    if Reachable(g, "a", y) {
      ExpandedContainsReachable(g, "a", {}, found, y);
    }
    if y in found {
      var w := if y == "e" then ["a", "c", "e"] else if y == "f" then ["a", "d", "f"] else ["a", y];
      assert AvoidingWalk(g, w, "a", y, {});
    }
  }

  /** The repository's test: from "a", with no `seen` set, the ancestors are b, c, d, e and f. */
  method ExampleSearch() returns (ancestors: set<string>)
    ensures ancestors == {"b", "c", "d", "e", "f"}
  {
    var result := GetAncestors("a", ExampleGraph(), null);
    ancestors := result.items;
    forall y ensures y in ancestors <==> y in {"b", "c", "d", "e", "f"} {
      ExampleAncestors(y);
    }
  }
}
