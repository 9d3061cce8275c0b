/** The two sides of an edge of a join tree: the nodes that can be reached from one end without
    going through the other. */
module JoinTreeSides {
  import opened Assignments
  import opened JoinTrees
  import opened JoinTreeMessages
  import opened JoinTreeCalibration
  import opened JoinTreePaths

  /** Node n is c or below it. */
  ghost predicate Under(t: Tree, o: Orientation, c: nat, n: nat)
    requires Oriented(t, o) && n < |t.nbrs|
    decreases o.rank[n]
  {
    n == c || (n != o.order[0] && Under(t, o, c, o.parent[n]))
  }

  /** The nodes on the side of u of the edge between u and v. */
  ghost function Side(t: Tree, o: Orientation, u: nat, v: nat): set<nat>
    requires Oriented(t, o) && o.Edge(u, v)
  {
    if o.Child(u, v) then set n | n in Nodes(t) && Under(t, o, u, n) else set n | n in Nodes(t) && !Under(t, o, v, n)
  }

  lemma {:induction false} UnderRank(t: Tree, o: Orientation, c: nat, n: nat)
    requires Oriented(t, o) && n < |t.nbrs| && Under(t, o, c, n)
    ensures c < |t.nbrs| && o.rank[c] <= o.rank[n] && (o.rank[c] == o.rank[n] ==> n == c)
    decreases o.rank[n]
  {
    if n != c {
      UnderRank(t, o, c, o.parent[n]);
    }
  }

  lemma SidesSplit(t: Tree, o: Orientation, u: nat, v: nat)
    requires Oriented(t, o) && o.Edge(u, v)
    ensures o.Edge(v, u) && u in Side(t, o, u, v) && v in Side(t, o, v, u)
    ensures Side(t, o, u, v) !! Side(t, o, v, u) && Side(t, o, u, v) + Side(t, o, v, u) == Nodes(t)
  {
    OneWay(t, o, u, v);
    var c, p := if o.Child(u, v) then u else v, if o.Child(u, v) then v else u;
    if Under(t, o, c, p) {
      UnderRank(t, o, c, p);
      assert false;
    }
  }

  /** The neighbour of i through which node n is reached. */
  ghost function Toward(t: Tree, o: Orientation, i: nat, n: nat): nat
    requires Oriented(t, o) && i < |t.nbrs| && n < |t.nbrs|
  {
    if Under(t, o, i, n) then Branch(t, o, i, n) else o.parent[i]
  }

  /** The child of i above n. */
  ghost function Branch(t: Tree, o: Orientation, i: nat, n: nat): nat
    requires Oriented(t, o) && n < |t.nbrs|
    decreases o.rank[n]
  {
    if n == o.order[0] || o.parent[n] == i then n else Branch(t, o, i, o.parent[n])
  }

  lemma {:induction false} BranchIs(t: Tree, o: Orientation, i: nat, n: nat)
    requires Oriented(t, o) && n < |t.nbrs| && Under(t, o, i, n) && n != i
    ensures var b := Branch(t, o, i, n); o.Child(b, i) && Under(t, o, b, n)
    decreases o.rank[n]
  {
    UnderRank(t, o, i, n);
    if o.parent[n] != i {
      BranchIs(t, o, i, o.parent[n]);
    }
  }

  /** No other child of i is above n. */
  lemma {:induction false} OneBranch(t: Tree, o: Orientation, i: nat, n: nat, d: nat)
    requires Oriented(t, o) && n < |t.nbrs| && o.Child(d, i) && Under(t, o, d, n)
    ensures Under(t, o, i, n) && n != i && Branch(t, o, i, n) == d
    decreases o.rank[n]
  {
    UnderRank(t, o, d, n);
    assert Under(t, o, i, i);
    if n != d {
      OneBranch(t, o, i, o.parent[n], d);
    }
  }

  lemma {:induction false} UnderRoot(t: Tree, o: Orientation, n: nat)
    requires Oriented(t, o) && n < |t.nbrs|
    ensures Under(t, o, o.order[0], n)
    decreases o.rank[n]
  {
    if n != o.order[0] {
      UnderRoot(t, o, o.parent[n]);
    }
  }

  /** Seen from node i, each other node is on the side of just one neighbour. */
  lemma OneToward(t: Tree, o: Orientation, i: nat, n: nat, d: nat)
    requires Oriented(t, o) && i < |t.nbrs| && n < |t.nbrs| && o.Edge(d, i)
    ensures n in Side(t, o, d, i) <==> n != i && Toward(t, o, i, n) == d
  {
    OneWay(t, o, d, i);
    if o.Child(d, i) {
      if Under(t, o, d, n) {
        OneBranch(t, o, i, n, d);
      } else if n != i && Toward(t, o, i, n) == d {
        if Under(t, o, i, n) {
          BranchIs(t, o, i, n);
        } else {
          UnderRoot(t, o, n);
        }
      }
    } else if n != i && Under(t, o, i, n) {
      BranchIs(t, o, i, n);
    }
  }

  lemma TowardNeighbour(t: Tree, o: Orientation, i: nat, n: nat)
    requires Oriented(t, o) && i < |t.nbrs| && n < |t.nbrs| && n != i
    ensures o.Edge(Toward(t, o, i, n), i) && Toward(t, o, i, n) in t.nbrs[i]
  {
    var d := Toward(t, o, i, n);
    if Under(t, o, i, n) {
      BranchIs(t, o, i, n);
    } else {
      UnderRoot(t, o, n);
      HasParent(t, o, i);
      OneWay(t, o, i, d);
    }
    assert o.Edge(d, i);
  }

  /** Node i and all nodes on the sides of the neighbours in d. */
  ghost function Around(t: Tree, o: Orientation, i: nat, d: set<nat>): set<nat>
    requires Oriented(t, o) && i < |t.nbrs|
  {
    set n | n in Nodes(t) && (n == i || Toward(t, o, i, n) in d)
  }

  lemma AroundMore(t: Tree, o: Orientation, i: nat, d: set<nat>, j: nat)
    requires Oriented(t, o) && i < |t.nbrs| && o.Edge(j, i) && j !in d
    ensures Around(t, o, i, d + {j}) == Around(t, o, i, d) + Side(t, o, j, i)
    ensures Around(t, o, i, d) !! Side(t, o, j, i)
  {
    hide Side, Toward, Oriented;
    forall n | n in Nodes(t)
      ensures n in Side(t, o, j, i) <==> n != i && Toward(t, o, i, n) == j
    {
      OneToward(t, o, i, n, j);
    }
    SidesSplit(t, o, j, i);
  }

  /** The side of i of an edge is i and the sides of its other neighbours. */
  lemma SideIsAround(t: Tree, o: Orientation, i: nat, j: nat)
    requires Oriented(t, o) && i < |t.nbrs| && o.Edge(i, j)
    ensures Side(t, o, i, j) == Around(t, o, i, t.nbrs[i] - {j})
  {
    SidesSplit(t, o, i, j);
    hide Side, Toward, Oriented;
    forall n | n in Nodes(t)
      ensures n in Side(t, o, i, j) <==> n == i || Toward(t, o, i, n) in t.nbrs[i] - {j}
    {
      OneToward(t, o, i, n, j);
      if n != i {
        TowardNeighbour(t, o, i, n);
      }
    }
  }

  lemma AllAround(t: Tree, o: Orientation, i: nat)
    requires Oriented(t, o) && i < |t.nbrs|
    ensures Around(t, o, i, {}) == {i} && Around(t, o, i, t.nbrs[i]) == Nodes(t)
  {
    hide Toward, Oriented;
    forall n | n in Nodes(t) && n != i
      ensures Toward(t, o, i, n) in t.nbrs[i]
    {
      TowardNeighbour(t, o, i, n);
    }
  }

  // ---- variables ----

  /** The variables of the cliques in a. */
  ghost function VarsOf(t: Tree, a: set<nat>): set<nat> {
    set i: nat, k: nat | i in a && i < |t.vars| && k in t.vars[i] :: k
  }

  lemma VarsOfSum(t: Tree, a: set<nat>, b: set<nat>)
    ensures VarsOf(t, a + b) == VarsOf(t, a) + VarsOf(t, b)
  {
  }

  lemma VarsOfAll(t: Tree)
    requires |t.vars| == |t.nbrs|
    ensures VarsOf(t, Nodes(t)) == AllVars(t) && forall a :: VarsOf(t, a) <= AllVars(t)
  {
    forall a, k | k in VarsOf(t, a)
      ensures k in AllVars(t)
    {
      var i: nat :| i in a && i < |t.vars| && k in t.vars[i];
      WithinAll(t, i);
    }
  }

  /** What cliques on both sides of an edge have in common, both its ends have. */
  lemma {:induction false} EdgeSeparates(t: Tree, o: Orientation, c: nat, n: nat, m: nat, k: nat)
    requires Oriented(t, o) && RunningIntersection(t, o) && c < |t.nbrs| && c != o.order[0]
    requires n < |t.nbrs| && m < |t.nbrs| && Under(t, o, c, n) && !Under(t, o, c, m)
    requires k in t.vars[n] && k in t.vars[m]
    ensures k in t.vars[c] && k in t.vars[o.parent[c]]
    decreases o.rank[n] + o.rank[m]
  {
    UnderRank(t, o, c, n);
    assert o.order[o.rank[n]] == n && o.order[o.rank[m]] == m;
    if o.rank[m] < o.rank[n] {
      assert t.vars[m] * t.vars[n] <= t.vars[o.parent[n]];
      if n != c {
        EdgeSeparates(t, o, c, o.parent[n], m, k);
      }
    } else {
      assert t.vars[n] * t.vars[m] <= t.vars[o.parent[m]];
      EdgeSeparates(t, o, c, n, o.parent[m], k);
    }
  }

  /** The cliques on the two sides only have the variables of the edge in common. */
  lemma SidesShare(t: Tree, o: Orientation, u: nat, v: nat)
    requires Oriented(t, o) && RunningIntersection(t, o) && o.Edge(u, v)
    ensures o.Edge(v, u) && u < |t.vars| && v < |t.vars|
    ensures VarsOf(t, Side(t, o, u, v)) * VarsOf(t, Side(t, o, v, u)) == Shared(t, u, v)
  {
    SidesSplit(t, o, u, v);
    OneWay(t, o, u, v);
    var c := if o.Child(u, v) then u else v;
    forall k | k in VarsOf(t, Side(t, o, u, v)) && k in VarsOf(t, Side(t, o, v, u))
      ensures k in Shared(t, u, v)
    {
      var n: nat :| n in Side(t, o, u, v) && n < |t.vars| && k in t.vars[n];
      var m: nat :| m in Side(t, o, v, u) && m < |t.vars| && k in t.vars[m];
      if o.Child(u, v) {
        EdgeSeparates(t, o, c, n, m, k);
      } else {
        EdgeSeparates(t, o, c, m, n, k);
      }
    }
  }
}
