/** Paths in a join tree, and seeing the tree from another root. */
module JoinTreePaths {
  import opened JoinTrees

  /** A path without repetitions. */
  ghost predicate Path(t: Tree, q: seq<nat>) {
    && |q| > 0 && |t.vars| == |t.nbrs|
    && (forall i :: 0 <= i < |q| ==> q[i] < |t.nbrs|)
    && (forall i :: 0 < i < |q| ==> q[i - 1] in t.nbrs[q[i]] && q[i] in t.nbrs[q[i - 1]])
    && forall i, j :: 0 <= i < j < |q| ==> q[i] != q[j]
  }

  /** The condition on join trees: on a path between two cliques, all cliques have the variables
      that both ends have. */
  ghost predicate PathCondition(t: Tree) {
    forall q :: Path(t, q) ==> forall i :: 0 <= i < |q| ==> t.vars[q[0]] * t.vars[q[|q| - 1]] <= t.vars[q[i]]
  }

  /** The same, seen from a root: what a clique has in common with one before it in the order, its
      parent has, too. */
  ghost predicate RunningIntersection(t: Tree, o: Orientation)
    requires Oriented(t, o)
  {
    forall u, v :: 0 <= u < |t.vars| && 0 <= v < |t.vars| && o.rank[u] < o.rank[v] ==>
      t.vars[u] * t.vars[v] <= t.vars[o.parent[v]]
  }

  lemma NotRoot(t: Tree, o: Orientation, v: nat)
    requires Oriented(t, o) && v < |t.nbrs| && o.rank[v] > 0
    ensures v != o.order[0] && o.parent[v] < |t.nbrs| && o.rank[o.parent[v]] < o.rank[v]
    ensures o.Edge(o.parent[v], v) && o.Edge(v, o.parent[v])
    ensures o.parent[v] in t.nbrs[v] && v in t.nbrs[o.parent[v]]
  {
    assert o.Edge(o.parent[v], v) && o.Edge(v, o.parent[v]);
  }

  lemma PathLonger(t: Tree, q: seq<nat>, v: nat)
    requires Path(t, q) && v < |t.nbrs| && v !in q
    ensures v in t.nbrs[q[0]] && q[0] in t.nbrs[v] ==> Path(t, [v] + q)
    ensures v in t.nbrs[q[|q| - 1]] && q[|q| - 1] in t.nbrs[v] ==> Path(t, q + [v])
  {
  }

  /** There is a path between any two nodes that stays among the nodes up to the later one. */
  lemma {:induction false} Connected(t: Tree, o: Orientation, a: nat, b: nat) returns (q: seq<nat>)
    requires Oriented(t, o) && a < |t.nbrs| && b < |t.nbrs|
    ensures Path(t, q) && q[0] == a && q[|q| - 1] == b
    ensures forall v :: v in q ==> v < |o.rank| && (o.rank[v] <= o.rank[a] || o.rank[v] <= o.rank[b])
    decreases o.rank[a] + o.rank[b]
  {
    if a == b {
      q := [a];
    } else if o.rank[a] > o.rank[b] {
      NotRoot(t, o, a);
      hide Oriented;
      var rest := Connected(t, o, o.parent[a], b);
      PathLonger(t, rest, a);
      hide Path;
      q := [a] + rest;
    } else {
      assert o.rank[a] != o.rank[b];
      NotRoot(t, o, b);
      hide Oriented;
      var rest := Connected(t, o, a, o.parent[b]);
      PathLonger(t, rest, b);
      hide Path;
      q := rest + [b];
    }
  }

  lemma PathIntersects(t: Tree, o: Orientation, u: nat, v: nat)
    requires Oriented(t, o) && PathCondition(t) && u < |t.vars| && v < |t.vars| && o.rank[u] < o.rank[v]
    ensures o.parent[v] < |t.vars| && t.vars[u] * t.vars[v] <= t.vars[o.parent[v]]
  {
    NotRoot(t, o, v);
    Shape(t, o);
    var p := o.parent[v];
    var rest := Connected(t, o, p, u);
    hide Oriented;
    PathLonger(t, rest, v);
    var q := [v] + rest;
    assert Path(t, q);
    assert q[1] == p && q[0] == v && q[|q| - 1] == u;
  }

  /** The condition on paths gives the condition seen from a root. */
  lemma PathsIntersect(t: Tree, o: Orientation)
    requires Oriented(t, o) && PathCondition(t)
    ensures RunningIntersection(t, o)
  {
    hide PathCondition;
    forall u, v | 0 <= u < |t.vars| && 0 <= v < |t.vars| && o.rank[u] < o.rank[v]
      ensures t.vars[u] * t.vars[v] <= t.vars[o.parent[v]]
    {
      PathIntersects(t, o, u, v);
    }
  }

  // ---- another root ----

  /** The tree seen from a neighbour of its root. */
  function ReRooted(o: Orientation, c: nat): Orientation
    requires |o.order| > 0 && c < |o.rank| && o.rank[c] < |o.order| && o.order[0] < |o.parent|
  {
    var r := o.rank[c];
    Orientation(seq(|o.order|, (k: nat) requires k < |o.order| => if k == 0 then c else if k <= r then o.order[k - 1] else o.order[k]),
                seq(|o.rank|, (v: nat) requires v < |o.rank| => if v == c then 0 else if o.rank[v] < r then o.rank[v] + 1 else o.rank[v]),
                o.parent[o.order[0] := c])
  }

  lemma ReRoot(t: Tree, o: Orientation, c: nat)
    requires Oriented(t, o) && RunningIntersection(t, o) && c < |t.nbrs| && o.order[0] in t.nbrs[c]
    ensures c != o.order[0]
    ensures var o' := ReRooted(o, c); Oriented(t, o') && RunningIntersection(t, o') && o'.order[0] == c
  {
    var root, o' := o.order[0], ReRooted(o, c);
    assert o.Edge(root, c);
    ReRootRanks(t, o, c);
    ReRootEdges(t, o, c);
    assert Oriented(t, o');
    forall u, v | 0 <= u < |t.vars| && 0 <= v < |t.vars| && o'.rank[u] < o'.rank[v]
      ensures t.vars[u] * t.vars[v] <= t.vars[o'.parent[v]]
    {
      if v == root {
        assert u == c;
      } else if u == c && o.rank[v] < o.rank[c] {
        assert t.vars[v] * t.vars[c] <= t.vars[root];
        assert t.vars[root] * t.vars[v] <= t.vars[o.parent[v]];
      }
    }
  }

  lemma ReRootRanks(t: Tree, o: Orientation, c: nat)
    requires Oriented(t, o) && c < |t.nbrs| && o.Edge(o.order[0], c) && c != o.order[0]
    ensures var o' := ReRooted(o, c); var n := |t.nbrs|;
            && |o'.order| == |o'.rank| == |o'.parent| == n && o'.order[0] == c
            && (forall v :: 0 <= v < n ==> o'.rank[v] < n && o'.order[o'.rank[v]] == v)
            && (forall k :: 0 <= k < n ==> o'.order[k] < n && o'.rank[o'.order[k]] == k)
  {
    var r, o', n := o.rank[c], ReRooted(o, c), |t.nbrs|;
    forall v | 0 <= v < n
      ensures o'.rank[v] < n && o'.order[o'.rank[v]] == v
    {
      assert o.order[o.rank[v]] == v;
    }
    forall k | 0 <= k < n
      ensures o'.order[k] < n && o'.rank[o'.order[k]] == k
    {
      assert k > 0 ==> o.rank[o.order[k - 1]] == k - 1;
      assert o.rank[o.order[k]] == k;
    }
  }

  lemma ReRootEdges(t: Tree, o: Orientation, c: nat)
    requires Oriented(t, o) && c < |t.nbrs| && o.Edge(o.order[0], c) && c != o.order[0]
    ensures var o' := ReRooted(o, c); var n := |t.nbrs|;
            && (forall v :: 0 <= v < n && v != c ==> o'.parent[v] < n && o'.rank[o'.parent[v]] < o'.rank[v])
            && forall u: nat, v: nat :: v < n ==> (u in t.nbrs[v] <==> o'.Edge(u, v))
  {
    ReRootRanks(t, o, c);
    var root, o', n := o.order[0], ReRooted(o, c), |t.nbrs|;
    assert o.parent[c] == root;
    forall u: nat, v: nat | v < n
      ensures u in t.nbrs[v] <==> o'.Edge(u, v)
    {
      assert u in t.nbrs[v] <==> o.Edge(u, v);
    }
  }

  /** The tree seen from any of its nodes. */
  lemma {:induction false} AnyRoot(t: Tree, o: Orientation, i: nat) returns (o': Orientation)
    requires Oriented(t, o) && RunningIntersection(t, o) && i < |t.nbrs|
    ensures Oriented(t, o') && RunningIntersection(t, o') && o'.order[0] == i
    decreases o.rank[i]
  {
    if o.rank[i] == 0 {
      o' := o;
    } else {
      NotRoot(t, o, i);
      var o1 := AnyRoot(t, o, o.parent[i]);
      ReRoot(t, o1, i);
      o' := ReRooted(o1, i);
    }
  }
}
