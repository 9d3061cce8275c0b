/** Join trees, and how far messages have been passed along their edges. */
module JoinTrees {

  /** A join tree: the neighbours of each node, and the variables of its clique. */
  datatype Tree = Tree(nbrs: seq<set<nat>>, vars: seq<set<nat>>)

  /** A tree seen from a root: its nodes in an order in which the parent of a node comes before
      it, the place of each node in that order, and the parents. The root comes first. */
  datatype Orientation = Orientation(order: seq<nat>, rank: seq<nat>, parent: seq<nat>) {
    ghost predicate Edge(u: nat, v: nat)
      requires |order| > 0
    {
      && u < |parent| && v < |parent|
      && ((v != order[0] && parent[v] == u) || (u != order[0] && parent[u] == v))
    }

    ghost predicate Child(c: nat, p: nat)
      requires |order| > 0
    {
      c < |parent| && p < |parent| && c != order[0] && parent[c] == p
    }
  }

  /** The graph is connected and has no cycle: it can be seen from a root. */
  ghost predicate Oriented(t: Tree, o: Orientation) {
    var n := |t.nbrs|;
    && n > 0 && |t.vars| == n && |o.order| == n && |o.rank| == n && |o.parent| == n
    && (forall v :: 0 <= v < n ==> o.rank[v] < n && o.order[o.rank[v]] == v)
    && (forall k :: 0 <= k < n ==> o.order[k] < n && o.rank[o.order[k]] == k)
    && (forall v :: 0 <= v < n && v != o.order[0] ==> o.parent[v] < n && o.rank[o.parent[v]] < o.rank[v])
    && (forall u: nat, v: nat :: v < n ==> (u in t.nbrs[v] <==> o.Edge(u, v)))
  }

  // ---- how far the messages have come ----

  /** For each node but the root: 0 if no message has been passed between it and its parent, 1 if
      it has sent one, 2 if its parent has answered. */
  type Stages = seq<nat>

  ghost predicate Sent(o: Orientation, st: Stages, i: nat, j: nat)
    requires |o.order| > 0 && |st| == |o.parent| && o.Edge(i, j)
  {
    if o.Child(i, j) then st[i] >= 1 else st[j] >= 2
  }

  /** What the schedule keeps: a node has heard from its children before it sends to its parent,
      and from all its neighbours before it sends to a child. */
  ghost predicate InOrder(t: Tree, o: Orientation, st: Stages)
    requires Oriented(t, o)
  {
    && |st| == |t.nbrs|
    && (forall c :: 0 <= c < |st| ==> st[c] <= 2)
    && (forall c: nat, d: nat :: o.Child(d, c) && c != o.order[0] && st[c] >= 1 ==> st[d] >= 1)
    && (forall c: nat, p: nat :: o.Child(c, p) && st[c] == 2 ==> Informed(t, o, st, p))
  }

  /** Node p has heard from all its neighbours. */
  ghost predicate Informed(t: Tree, o: Orientation, st: Stages, p: nat)
    requires Oriented(t, o) && |st| == |t.nbrs|
  {
    && p < |st|
    && (forall d: nat :: o.Child(d, p) ==> st[d] >= 1)
    && (p != o.order[0] ==> st[p] == 2)
  }

  /** The neighbours to which node i has not sent its message. */
  ghost function ToSend(t: Tree, o: Orientation, st: Stages, i: nat): set<nat>
    requires Oriented(t, o) && |st| == |t.nbrs| && i < |st|
  {
    set j | j in t.nbrs[i] && !Sent(o, st, i, j)
  }

  /** The neighbours from which node i has not had a message. */
  ghost function ToReceive(t: Tree, o: Orientation, st: Stages, i: nat): set<nat>
    requires Oriented(t, o) && |st| == |t.nbrs| && i < |st|
  {
    set j | j in t.nbrs[i] && !Sent(o, st, j, i)
  }

  /** Node i may send its first message, or one more message after it has heard from all. */
  ghost predicate Enabled(t: Tree, o: Orientation, st: Stages, i: nat)
    requires Oriented(t, o) && |st| == |t.nbrs| && i < |st|
  {
    || (i != o.order[0] && |ToSend(t, o, st, i)| == |t.nbrs[i]| && |ToReceive(t, o, st, i)| == 1)
    || (ToReceive(t, o, st, i) == {} && ToSend(t, o, st, i) != {})
  }

  /** A first message goes to the parent, after all children have sent theirs. */
  lemma FirstMessage(t: Tree, o: Orientation, st: Stages, i: nat, to: nat)
    requires Oriented(t, o) && InOrder(t, o, st) && i < |st| && i != o.order[0]
    requires |ToSend(t, o, st, i)| == |t.nbrs[i]| && ToReceive(t, o, st, i) == {to}
    ensures to == o.parent[i] && st[i] == 0 && forall d: nat :: o.Child(d, i) ==> st[d] >= 1
  {
    var p := o.parent[i];
    assert o.Edge(p, i) && p in t.nbrs[i];
    AllUnsent(t.nbrs[i], ToSend(t, o, st, i));
    assert p in ToSend(t, o, st, i);
    assert p in ToReceive(t, o, st, i);
    forall d: nat | o.Child(d, i)
      ensures st[d] >= 1
    {
      assert o.Edge(d, i) && d in t.nbrs[i];
      assert d !in ToReceive(t, o, st, i);
    }
  }

  lemma AllUnsent(s: set<nat>, part: set<nat>)
    requires part <= s && |part| == |s|
    ensures part == s
  {
    assert |s - part| == |s| - |part|;
  }

  /** Any further message goes to a child that has sent its own. */
  lemma LaterMessage(t: Tree, o: Orientation, st: Stages, i: nat, to: nat)
    requires Oriented(t, o) && InOrder(t, o, st) && i < |st|
    requires ToReceive(t, o, st, i) == {} && to in ToSend(t, o, st, i)
    ensures o.Child(to, i) && st[to] == 1 && Informed(t, o, st, i)
  {
    forall d: nat | o.Edge(d, i)
      ensures Sent(o, st, d, i)
    {
      assert d in t.nbrs[i] && d !in ToReceive(t, o, st, i);
    }
    forall d: nat | o.Child(d, i)
      ensures st[d] >= 1
    {
      assert o.Edge(d, i);
    }
    if i != o.order[0] {
      assert o.Edge(o.parent[i], i);
      assert st[i] == 2;
    }
  }

  /** The message from i to j is passed. */
  ghost function Passed(o: Orientation, st: Stages, i: nat, j: nat): Stages
    requires |o.order| > 0 && |st| == |o.parent| && o.Edge(i, j)
  {
    if o.Child(i, j) then st[i := 1] else st[j := 2]
  }

  lemma HasParent(t: Tree, o: Orientation, i: nat)
    requires Oriented(t, o) && i < |t.nbrs| && i != o.order[0]
    ensures o.Child(i, o.parent[i]) && o.Edge(i, o.parent[i]) && o.parent[i] < |t.nbrs| && o.parent[i] != i
  {
  }

  lemma FirstKeepsOrder(t: Tree, o: Orientation, st: Stages, i: nat)
    requires Oriented(t, o) && InOrder(t, o, st) && i < |st| && i != o.order[0]
    requires st[i] == 0 && forall d: nat :: o.Child(d, i) ==> st[d] >= 1
    ensures o.Edge(i, o.parent[i]) && o.Child(i, o.parent[i]) && InOrder(t, o, Passed(o, st, i, o.parent[i]))
  {
    HasParent(t, o, i);
    Shape(t, o);
    hide Oriented;
    var st' := st[i := 1];
    forall c: nat, p: nat | o.Child(c, p) && st'[c] == 2
      ensures Informed(t, o, st', p)
    {
      assert st[c] == 2;
      assert Informed(t, o, st, p);
      RaiseInformed(t, o, st, st', p);
    }
  }

  lemma Shape(t: Tree, o: Orientation)
    requires Oriented(t, o)
    ensures |t.nbrs| == |t.vars| == |o.order| == |o.rank| == |o.parent| > 0
  {
  }

  lemma RaiseInformed(t: Tree, o: Orientation, st: Stages, st': Stages, p: nat)
    requires Oriented(t, o) && |st| == |st'| == |t.nbrs| && Informed(t, o, st, p)
    requires forall c :: 0 <= c < |st| ==> st[c] <= st'[c] <= 2
    ensures Informed(t, o, st', p)
  {
    Shape(t, o);
    hide Oriented;
  }

  lemma LaterKeepsOrder(t: Tree, o: Orientation, st: Stages, i: nat, to: nat)
    requires Oriented(t, o) && InOrder(t, o, st) && o.Child(to, i) && st[to] == 1 && Informed(t, o, st, i)
    ensures o.Edge(i, to) && !o.Child(i, to) && InOrder(t, o, Passed(o, st, i, to))
  {
    Shape(t, o);
    assert o.Edge(to, i);
    OneWay(t, o, to, i);
    hide Oriented;
    var st' := st[to := 2];
    forall c: nat, p: nat | o.Child(c, p) && st'[c] == 2
      ensures Informed(t, o, st', p)
    {
      assert c != to ==> st[c] == 2;
      assert Informed(t, o, st, p);
      RaiseInformed(t, o, st, st', p);
    }
  }

  /** Passing a message takes it off the lists of its two nodes, and off no other. */
  lemma PassedSets(t: Tree, o: Orientation, st: Stages, i: nat, j: nat, k: nat)
    requires Oriented(t, o) && |st| == |t.nbrs| && i < |st| && j in t.nbrs[i] && k < |st|
    requires o.Edge(i, j) && (if o.Child(i, j) then st[i] == 0 else st[j] == 1)
    ensures var st' := Passed(o, st, i, j);
            && ToSend(t, o, st', k) == ToSend(t, o, st, k) - (if k == i then {j} else {})
            && ToReceive(t, o, st', k) == ToReceive(t, o, st, k) - (if k == j then {i} else {})
  {
    var st' := Passed(o, st, i, j);
    forall m | m in t.nbrs[k]
      ensures Sent(o, st', k, m) <==> Sent(o, st, k, m) || (k == i && m == j)
      ensures o.Edge(m, k) && (Sent(o, st', m, k) <==> Sent(o, st, m, k) || (m == i && k == j))
    {
      assert o.Edge(m, k);
      OneWay(t, o, k, m);
      OneWay(t, o, i, j);
    }
  }

  lemma OneWay(t: Tree, o: Orientation, i: nat, j: nat)
    requires Oriented(t, o) && o.Edge(i, j)
    ensures o.Edge(j, i) && i != j && (o.Child(i, j) <==> !o.Child(j, i))
  {
  }

  /** As long as messages are missing, some node may send one: the last node in the order that has
      not sent to its parent, or the first one that has had no answer. */
  lemma NoDeadlock(t: Tree, o: Orientation, st: Stages)
    requires Oriented(t, o) && InOrder(t, o, st)
    requires forall i :: 0 <= i < |st| ==> !Enabled(t, o, st, i)
    ensures forall c :: 0 <= c < |st| && c != o.order[0] ==> st[c] == 2
  {
    forall c | 0 <= c < |st| && c != o.order[0]
      ensures st[c] >= 1
    {
      if st[c] == 0 {
        StuckBelow(t, o, st, c);
      }
    }
    forall c | 0 <= c < |st| && c != o.order[0]
      ensures st[c] == 2
    {
      if st[c] == 1 {
        StuckAbove(t, o, st, c);
      }
    }
  }

  lemma {:induction false} StuckBelow(t: Tree, o: Orientation, st: Stages, c: nat)
    requires Oriented(t, o) && InOrder(t, o, st) && c < |st| && c != o.order[0] && st[c] == 0
    ensures exists i :: 0 <= i < |st| && Enabled(t, o, st, i)
    decreases |st| - o.rank[c]
  {
    if d: nat :| o.Child(d, c) && st[d] == 0 {
      assert o.rank[c] < o.rank[d];
      StuckBelow(t, o, st, d);
    } else {
      var p := o.parent[c];
      forall j | j in t.nbrs[c]
        ensures o.Edge(c, j) && o.Edge(j, c) && !Sent(o, st, c, j) && (Sent(o, st, j, c) <==> j != p)
      {
        assert o.Edge(j, c);
        OneWay(t, o, j, c);
        if j != p {
          assert o.Child(j, c);
          assert st[j] == 2 ==> Informed(t, o, st, c);
        }
      }
      assert p in t.nbrs[c] by { assert o.Edge(p, c); }
      assert ToSend(t, o, st, c) == t.nbrs[c];
      assert ToReceive(t, o, st, c) == {p};
      assert Enabled(t, o, st, c);
    }
  }

  lemma {:induction false} StuckAbove(t: Tree, o: Orientation, st: Stages, c: nat)
    requires Oriented(t, o) && InOrder(t, o, st) && c < |st| && c != o.order[0] && st[c] == 1
    requires forall d :: 0 <= d < |st| && d != o.order[0] ==> st[d] >= 1
    ensures exists i :: 0 <= i < |st| && Enabled(t, o, st, i)
    decreases o.rank[c]
  {
    var p := o.parent[c];
    if p != o.order[0] && st[p] == 1 {
      StuckAbove(t, o, st, p);
    } else {
      forall j | j in t.nbrs[p]
        ensures o.Edge(j, p) && Sent(o, st, j, p)
      {
        assert o.Edge(j, p);
        OneWay(t, o, j, p);
      }
      assert ToReceive(t, o, st, p) == {};
      assert o.Edge(c, p);
      OneWay(t, o, c, p);
      assert c in t.nbrs[p] && !Sent(o, st, p, c);
      assert c in ToSend(t, o, st, p);
      assert Enabled(t, o, st, p);
    }
  }

  /** When all messages have been answered, the lists are empty. */
  lemma AllDone(t: Tree, o: Orientation, st: Stages, i: nat)
    requires Oriented(t, o) && |st| == |t.nbrs| && i < |st|
    requires forall c :: 0 <= c < |st| && c != o.order[0] ==> st[c] == 2
    ensures ToSend(t, o, st, i) == {} && ToReceive(t, o, st, i) == {}
  {
    forall j | j in t.nbrs[i]
      ensures o.Edge(i, j) && o.Edge(j, i) && Sent(o, st, i, j) && Sent(o, st, j, i)
    {
      assert o.Edge(j, i);
      OneWay(t, o, j, i);
    }
  }
}
