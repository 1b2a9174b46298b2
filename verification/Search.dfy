/** `reachable`: breadth-first search from a root, `depth` levels deep, over a rule graph. */
module Search {
  import opened Bytes
  import opened Grammar

  type Graph = map<Name, seq<Name>>

  // -------------------------------------------------------------- distance

  /** There is a walk of exactly `n` edges from the root to `v`. */
  ghost predicate Walk(g: Graph, root: Name, v: Name, n: nat)
    decreases n
  {
    if n == 0 then v == root
    else exists u :: Walk(g, root, u, n - 1) && u in g && v in g[u]
  }

  /** The shortest walk to `v` has `n` edges. */
  ghost predicate Dist(g: Graph, root: Name, v: Name, n: nat) {
    Walk(g, root, v, n) && forall k :: 0 <= k < n ==> !Walk(g, root, v, k)
  }

  lemma {:induction false} WalkExtends(g: Graph, root: Name, u: Name, v: Name, n: nat)
    requires Walk(g, root, u, n) && u in g && v in g[u]
    ensures Walk(g, root, v, n + 1)
  {}

  lemma {:induction false} SomeDist(g: Graph, root: Name, v: Name, n: nat) returns (d: nat)
    requires Walk(g, root, v, n)
    ensures d <= n && Dist(g, root, v, d)
    decreases n
  {
    hide Walk;
    if k :| 0 <= k < n && Walk(g, root, v, k) {
      d := SomeDist(g, root, v, k);
    } else {
      d := n;
    }
  }

  /** The node before the last on a shortest walk is one step nearer. */
  lemma {:induction false} Predecessor(g: Graph, root: Name, v: Name, n: nat) returns (u: Name)
    requires Dist(g, root, v, n) && n > 0
    ensures Dist(g, root, u, n - 1) && u in g && v in g[u]
  {
    u :| Walk(g, root, u, n - 1) && u in g && v in g[u];
    forall k | 0 <= k < n - 1
      ensures !Walk(g, root, u, k)
    {
      if Walk(g, root, u, k) {
        WalkExtends(g, root, u, v, k);
      }
    }
  }

  lemma {:induction false} DistUnique(g: Graph, root: Name, v: Name, m: nat, n: nat)
    requires Dist(g, root, v, m) && Dist(g, root, v, n)
    ensures m == n
  {
    hide Walk;
  }

  // ------------------------------------------------------------- invariant

  /** `seen` holds true distances, within the depth. */
  ghost predicate Measured(g: Graph, root: Name, depth: int, seen: map<Name, nat>) {
    && root in seen
    && forall v :: v in seen ==> Dist(g, root, v, seen[v]) && (seen[v] <= depth || v == root)
  }

  /** The queue: seen names, each once, nearest first, spanning at most two levels. */
  ghost predicate Queued(seen: map<Name, nat>, q: seq<Name>) {
    && NoDuplicates(q)
    && (forall i :: 0 <= i < |q| ==> q[i] in seen)
    && (forall i, j :: 0 <= i < j < |q| ==> seen[q[i]] <= seen[q[j]])
    && (forall i :: 0 <= i < |q| ==> seen[q[i]] <= seen[q[0]] + 1)
  }

  /** `order` lists the expanded names: those seen nearer than the depth and no longer queued. */
  ghost predicate Expanded(g: Graph, depth: int, seen: map<Name, nat>, q: seq<Name>, order: seq<Name>) {
    && NoDuplicates(order)
    && (forall u :: u in order <==> u in seen && u !in q && seen[u] < depth)
    && (forall u, v :: u in order && u in g && v in g[u] ==> v in seen)
  }

  ghost predicate Inv(g: Graph, root: Name, depth: int, seen: map<Name, nat>, q: seq<Name>, order: seq<Name>) {
    && Measured(g, root, depth, seen)
    && Queued(seen, q)
    && Expanded(g, depth, seen, q, order)
  }

  /** Every name within the depth that is no farther than the front of the queue has been seen. */
  lemma {:induction false} NearIsSeen(g: Graph, root: Name, depth: int, seen: map<Name, nat>, q: seq<Name>,
                                      order: seq<Name>, v: Name, n: nat)
    requires Inv(g, root, depth, seen, q, order) && Dist(g, root, v, n)
    requires n == 0 || n <= depth
    requires q == [] || n <= seen[q[0]]
    ensures v in seen && seen[v] == n
    decreases n
  {
    hide Dist;
    if n == 0 {
      RootDist(g, root, v);
      DistUnique(g, root, v, 0, seen[v]);
    } else {
      var u := Predecessor(g, root, v, n);
      NearIsSeen(g, root, depth, seen, q, order, u, n - 1);
      assert u !in q;
      assert u in order;
      DistUnique(g, root, v, n, seen[v]);
    }
  }

  lemma {:induction false} RootDist(g: Graph, root: Name, v: Name)
    requires Dist(g, root, v, 0)
    ensures v == root
  {}

  /** A name first met while expanding the front is exactly one step farther. */
  lemma {:induction false} NewIsNext(g: Graph, root: Name, depth: int, seen: map<Name, nat>, q: seq<Name>,
                                     order: seq<Name>, v: Name)
    requires Inv(g, root, depth, seen, q, order) && q != [] && seen[q[0]] < depth
    requires q[0] in g && v in g[q[0]] && v !in seen
    ensures Dist(g, root, v, seen[q[0]] + 1)
  {
    hide Walk;
    var d := seen[q[0]];
    WalkExtends(g, root, q[0], v, d);
    var k := SomeDist(g, root, v, d + 1);
    if k <= d {
      NearIsSeen(g, root, depth, seen, q, order, v, k);
    }
  }

  lemma {:induction false} AddKeepsInv(g: Graph, root: Name, depth: int, seen: map<Name, nat>, q: seq<Name>, order: seq<Name>, v: Name)
    requires Inv(g, root, depth, seen, q, order) && q != [] && seen[q[0]] < depth && v !in seen
    requires Dist(g, root, v, seen[q[0]] + 1)
    ensures Inv(g, root, depth, seen[v := seen[q[0]] + 1], q + [v], order)
  {
    hide Dist;
  }

  /** Taking a name at the depth limit off the queue. */
  lemma {:induction false} SkipKeepsInv(g: Graph, root: Name, depth: int, seen: map<Name, nat>, q: seq<Name>, order: seq<Name>)
    requires Inv(g, root, depth, seen, q, order) && q != [] && seen[q[0]] >= depth
    ensures Inv(g, root, depth, seen, q[1..], order)
  {
    hide Dist;
    TailQueued(seen, q);
  }

  lemma {:induction false} TailQueued(seen: map<Name, nat>, q: seq<Name>)
    requires Queued(seen, q) && q != []
    ensures Queued(seen, q[1..])
    ensures forall u :: u in q[1..] <==> u in q && u != q[0]
  {
    var t := q[1..];
    assert forall i :: 0 <= i < |t| ==> t[i] == q[i + 1];
    assert q == [q[0]] + t;
    assert q[0] !in t;
  }

  /** Taking an expanded name off the queue. */
  lemma {:induction false} PopKeepsInv(g: Graph, root: Name, depth: int, seen: map<Name, nat>, q: seq<Name>, order: seq<Name>)
    requires Inv(g, root, depth, seen, q, order) && q != [] && seen[q[0]] < depth
    requires q[0] in g ==> forall v :: v in g[q[0]] ==> v in seen
    ensures Inv(g, root, depth, seen, q[1..], order + [q[0]])
  {
    hide Dist;
    TailQueued(seen, q);
    assert q[0] !in order;
  }

  // ---------------------------------------------------------------- search

  function Arrows(u: Name, vs: seq<Name>): (es: seq<Edge>)
    ensures |es| == |vs| && forall k :: 0 <= k < |vs| ==> es[k] == (u, vs[k])
  {
    seq(|vs|, k requires 0 <= k < |vs| => (u, vs[k]))
  }

  /** `rules.get(u, [])`. */
  function Next(g: Graph, u: Name): seq<Name> {
    if u in g then g[u] else []
  }

  /** The edges out of the listed names, name by name. */
  function EdgesOf(g: Graph, order: seq<Name>): seq<Edge> {
    if order == [] then []
    else EdgesOf(g, order[..|order| - 1]) + Arrows(order[|order| - 1], Next(g, order[|order| - 1]))
  }

  lemma {:induction false} EdgesOfNext(g: Graph, order: seq<Name>, u: Name)
    ensures EdgesOf(g, order + [u]) == EdgesOf(g, order) + Arrows(u, Next(g, u))
  {
    assert (order + [u])[..|order|] == order;
  }

  /** The names that can ever be queued. */
  ghost function Names(g: Graph, root: Name): set<Name> {
    {root} + set u, v | u in g && v in g[u] :: v
  }

  /** The inner loop: record the edges out of the front of the queue and enqueue what is new. */
  method ExpandFront(g: Graph, ghost root: Name, depth: int, seen: map<Name, nat>, cur: Name, rest: seq<Name>,
                     edges: seq<Edge>, ghost order: seq<Name>)
    returns (seen': map<Name, nat>, rest': seq<Name>, edges': seq<Edge>)
    requires Inv(g, root, depth, seen, [cur] + rest, order) && seen[cur] < depth && edges == EdgesOf(g, order)
    ensures Inv(g, root, depth, seen', rest', order + [cur])
    ensures edges' == EdgesOf(g, order + [cur])
    ensures forall v :: v in rest' ==> v in rest || (v !in seen && v in Names(g, root))
    ensures forall v :: v in seen ==> v in seen'
  {
    hide Dist, Inv, EdgesOf;
    InvFacts(g, root, depth, seen, [cur] + rest, order);
    assert ([cur] + rest)[0] == cur;
    var d, vs := seen[cur], Next(g, cur);
    seen', rest', edges' := seen, rest, edges;
    for j := 0 to |vs|
      invariant Inv(g, root, depth, seen', [cur] + rest', order)
      invariant cur in seen' && seen'[cur] == d
      invariant edges' == edges + Arrows(cur, vs)[..j]
      invariant forall k :: 0 <= k < j ==> vs[k] in seen'
      invariant forall v :: v in seen ==> v in seen'
      invariant forall v :: v in rest' ==> v in rest || (v !in seen && v in Names(g, root))
    {
      var nxt := vs[j];
      edges' := edges' + [(cur, nxt)];
      if nxt !in seen' {
        NewIsNext(g, root, depth, seen', [cur] + rest', order, nxt);
        AddKeepsInv(g, root, depth, seen', [cur] + rest', order, nxt);
        assert ([cur] + rest') + [nxt] == [cur] + (rest' + [nxt]);
        assert nxt in Names(g, root);
        seen' := seen'[nxt := d + 1];
        rest' := rest' + [nxt];
      }
    }
    assert Arrows(cur, vs)[..|vs|] == Arrows(cur, vs);
    EdgesOfNext(g, order, cur);
    assert forall v :: v in vs ==> v in seen';
    PopKeepsInv(g, root, depth, seen', [cur] + rest', order);
    assert ([cur] + rest')[1..] == rest';
  }

  /**
   None where the tool exits because the root is no rule. `seen` and `order` are the search's own records:
   the distances it found, and the names it expanded.
   */
  method Reachable(g: Graph, root: Name, depth: int)
    returns (found: Option<seq<Edge>>, ghost seen': map<Name, nat>, ghost order: seq<Name>)
    ensures found.None? <==> root !in g
    ensures found.Some? ==>
              && found.value == EdgesOf(g, order) && NoDuplicates(order)
              && ExactEdges(g, root, depth, found.value)
              && ((forall u :: u in g ==> NoDuplicates(g[u])) ==> NoDuplicates(found.value))
              && (forall v :: v in seen' ==> Dist(g, root, v, seen'[v]))
              && (forall v, n: nat :: Dist(g, root, v, n) && n <= depth ==> v in seen' && seen'[v] == n)
  {
    hide Dist, Inv, ExactEdges, EdgesOf, Names, NoDuplicates;
    seen', order := map[], [];
    if root !in g {
      return None, map[], [];
    }
    var edges, seen: map<Name, nat>, q := [], map[root := 0], [root];
    InitialInv(g, root, depth);
    ghost var todo := Names(g, root);
    while q != []
      invariant Inv(g, root, depth, seen, q, order) && edges == EdgesOf(g, order)
      invariant forall v :: v in q ==> v in todo
      invariant forall v :: v in Names(g, root) && v !in seen ==> v in todo
      decreases todo
    {
      var cur, rest := q[0], q[1..];
      InvFacts(g, root, depth, seen, q, order);
      assert q == [cur] + rest;
      if seen[cur] >= depth {
        SkipKeepsInv(g, root, depth, seen, q, order);
        q := rest;
      } else {
        seen, q, edges := ExpandFront(g, root, depth, seen, cur, rest, edges, order);
        order := order + [cur];
      }
      todo := todo - {cur};
      assert forall v :: v in q ==> v in todo by {
        assert forall v :: v in rest ==> v in [cur] + rest;
      }
    }
    seen' := seen;
    found := Some(edges);
    SearchIsExact(g, root, depth, seen, order);
    EdgesAreExact(g, root, depth, seen, order);
  }

  lemma {:induction false} InvFacts(g: Graph, root: Name, depth: int, seen: map<Name, nat>, q: seq<Name>, order: seq<Name>)
    requires Inv(g, root, depth, seen, q, order) && q != []
    ensures q[0] in seen && q[0] !in q[1..]
    ensures forall v :: v in q ==> v in seen
  {
    hide Dist;
    TailQueued(seen, q);
  }

  lemma {:induction false} InitialInv(g: Graph, root: Name, depth: int)
    ensures Inv(g, root, depth, map[root := 0], [root], []) && EdgesOf(g, []) == []
    ensures root in Names(g, root)
  {
    assert Walk(g, root, root, 0);
    hide Walk;
  }

  // -------------------------------------------------------------- exactness

  /** Nearer than `depth` edges from the root. */
  ghost predicate Within(g: Graph, root: Name, u: Name, depth: int) {
    exists d: nat :: Dist(g, root, u, d) && d < depth
  }

  /** What a finished search has found: all true distances up to the depth, and every name nearer than it, once. */
  lemma {:induction false} SearchIsExact(g: Graph, root: Name, depth: int, seen: map<Name, nat>, order: seq<Name>)
    requires Inv(g, root, depth, seen, [], order)
    ensures NoDuplicates(order)
    ensures forall u :: u in order <==> Within(g, root, u, depth)
    ensures forall v :: v in seen ==> Dist(g, root, v, seen[v])
    ensures forall v, n: nat :: Dist(g, root, v, n) && n <= depth ==> v in seen && seen[v] == n
  {
    hide Dist;
    forall v, n: nat | Dist(g, root, v, n) && n <= depth
      ensures v in seen && seen[v] == n
    {
      NearIsSeen(g, root, depth, seen, [], order, v, n);
    }
    forall u
      ensures u in order <==> Within(g, root, u, depth)
    {
      if u in order {
        assert Dist(g, root, u, seen[u]);
      }
    }
  }

  lemma {:induction false} EdgesMembers(g: Graph, order: seq<Name>, e: Edge)
    ensures e in EdgesOf(g, order) <==> e.0 in order && e.0 in g && e.1 in g[e.0]
    decreases |order|
  {
    if order != [] {
      var front, u := order[..|order| - 1], order[|order| - 1];
      EdgesMembers(g, front, e);
      var vs := Next(g, u);
      assert order == front + [u];
      assert e in Arrows(u, vs) <==> e.0 == u && e.1 in vs by {
        if e.0 == u && e.1 in vs {
          var k :| 0 <= k < |vs| && vs[k] == e.1;
          assert Arrows(u, vs)[k] == e;
        }
      }
    }
  }

  lemma {:induction false} EdgesOnce(g: Graph, order: seq<Name>)
    requires NoDuplicates(order) && forall u :: u in g ==> NoDuplicates(g[u])
    ensures NoDuplicates(EdgesOf(g, order))
    decreases |order|
  {
    if order != [] {
      var front, u := order[..|order| - 1], order[|order| - 1];
      EdgesOnce(g, front);
      assert order == front + [u] && u !in front;
      var a, b := EdgesOf(g, front), Arrows(u, Next(g, u));
      forall i, j | 0 <= i < |a| && 0 <= j < |b|
        ensures a[i] != b[j]
      {
        EdgesMembers(g, front, a[i]);
      }
    }
  }

  /** The edges of the search: exactly those that start nearer than the depth. */
  ghost predicate ExactEdges(g: Graph, root: Name, depth: int, edges: seq<Edge>) {
    forall e :: e in edges <==> Within(g, root, e.0, depth) && e.0 in g && e.1 in g[e.0]
  }

  /** `reachable` returns each edge out of a name nearer than the depth, once, and no other. */
  lemma {:induction false} EdgesAreExact(g: Graph, root: Name, depth: int, seen: map<Name, nat>, order: seq<Name>)
    requires Inv(g, root, depth, seen, [], order)
    ensures ExactEdges(g, root, depth, EdgesOf(g, order))
    ensures (forall u :: u in g ==> NoDuplicates(g[u])) ==> NoDuplicates(EdgesOf(g, order))
  {
    hide Inv, EdgesOf, Within;
    SearchIsExact(g, root, depth, seen, order);
    forall e: Edge
      ensures e in EdgesOf(g, order) <==> Within(g, root, e.0, depth) && e.0 in g && e.1 in g[e.0]
    {
      EdgesMembers(g, order, e);
    }
    if forall u :: u in g ==> NoDuplicates(g[u]) {
      EdgesOnce(g, order);
    }
  }

  /** `all_edges`, rule by rule in the order of the dict. */
  function AllEdges(r: Rules): seq<Edge> {
    EdgesOf(r.refs, r.keys)
  }

  /** It holds every reference of every rule, once, and nothing else. */
  lemma {:induction false} AllEdgesExact(r: Rules)
    requires WellFormed(r)
    ensures forall e: Edge :: e in AllEdges(r) <==> e.0 in r.refs && e.1 in r.refs[e.0]
    ensures NoDuplicates(AllEdges(r))
  {
    hide EdgesOf;
    forall e: Edge
      ensures e in AllEdges(r) <==> e.0 in r.refs && e.1 in r.refs[e.0]
    {
      EdgesMembers(r.refs, r.keys, e);
      assert e.0 in Elements(r.keys) <==> e.0 in r.keys;
    }
    EdgesOnce(r.refs, r.keys);
  }

  /** On a finished rule map every edge that is found belongs to the full graph. */
  lemma {:induction false} FoundInAll(r: Rules, root: Name, depth: int, edges: seq<Edge>)
    requires WellFormed(r) && ExactEdges(r.refs, root, depth, edges)
    ensures forall e :: e in edges ==> e in AllEdges(r)
  {
    hide Within, EdgesOf;
    forall e | e in edges
      ensures e in AllEdges(r)
    {
      EdgesMembers(r.refs, r.keys, e);
      assert e.0 in Elements(r.keys);
    }
  }

  /** A deeper search finds everything a shallower one does. */
  lemma {:induction false} DeeperFindsMore(g: Graph, root: Name, d1: int, d2: int, e1: seq<Edge>, e2: seq<Edge>)
    requires d1 <= d2 && ExactEdges(g, root, d1, e1) && ExactEdges(g, root, d2, e2)
    ensures forall e :: e in e1 ==> e in e2
  {
    hide Dist;
    forall e | e in e1
      ensures e in e2
    {
      var d: nat :| Dist(g, root, e.0, d) && d < d1;
      assert Within(g, root, e.0, d2);
    }
  }
}
