/** What the tables of a join tree mean once all messages have been passed: each clique has the
    marginal of the whole distribution. */
module JoinTreeMarginals {
  import opened FiniteSums
  import opened Assignments
  import opened JoinTrees
  import opened JoinTreeMessages
  import opened JoinTreeCalibration
  import opened JoinTreePaths

  /** Both ends of each edge have the marginal that the edge keeps. */
  ghost predicate Agreed(card: seq<nat>, t: Tree, s: State) {
    && WellFormed(card, t, s) && |t.vars| == |t.nbrs|
    && forall i: nat, j: nat :: i < |t.nbrs| && j in t.nbrs[i] && j < |t.vars| ==>
         Over(Sep(s, i, j), card, Shared(t, i, j)) && Keeps(Sep(s, i, j), s.nodes[i], Shared(t, i, j))
  }

  /** The global assignments that agree with u on the variables in e. */
  ghost function Worlds(card: seq<nat>, all: set<nat>, e: set<nat>, u: Assignment): set<Assignment>
    requires forall k :: k in all ==> k < |card|
  {
    set w | w in Space(card, all) && Restrict(w, e) == u
  }

  /** The marginal of a distribution. */
  ghost function MarginalOf(card: seq<nat>, all: set<nat>, joint: Assignment -> real, e: set<nat>, u: Assignment): real
    requires forall k :: k in all ==> k < |card|
  {
    Sum(Worlds(card, all, e, u), joint)
  }

  /** The tables represent the distribution. */
  ghost predicate Represents(card: seq<nat>, t: Tree, s: State, joint: Assignment -> real) {
    forall w :: Legal(card, AllVars(t), w) ==> Balanced(t, s, w, joint(w))
  }

  // ---- the first k nodes of the order ----

  ghost function First(o: Orientation, k: nat): (a: set<nat>)
    requires k <= |o.order|
  {
    if k == 0 then {} else First(o, k - 1) + {o.order[k - 1]}
  }

  ghost function FirstVars(t: Tree, o: Orientation, k: nat): set<nat>
    requires Oriented(t, o) && k <= |o.order|
  {
    if k == 0 then {} else FirstVars(t, o, k - 1) + t.vars[o.order[k - 1]]
  }

  ghost function FirstLinks(t: Tree, o: Orientation, k: nat): set<(nat, nat)>
    requires Oriented(t, o) && k <= |o.order|
  {
    if k <= 1 then {} else FirstLinks(t, o, k - 1) + {Link(o.order[k - 1], o.parent[o.order[k - 1]])}
  }

  lemma {:induction false} FirstIs(t: Tree, o: Orientation, k: nat)
    requires Oriented(t, o) && k <= |o.order|
    ensures forall v: nat :: v in First(o, k) <==> v < |t.nbrs| && o.rank[v] < k
    ensures forall v: nat :: v in First(o, k) ==> t.vars[v] <= FirstVars(t, o, k)
    ensures forall x :: x in FirstVars(t, o, k) ==> exists v: nat :: v in First(o, k) && v < |t.vars| && x in t.vars[v]
    decreases k
  {
    if k > 0 {
      FirstIs(t, o, k - 1);
      var last := o.order[k - 1];
      forall x | x in FirstVars(t, o, k)
        ensures exists v: nat :: v in First(o, k) && v < |t.vars| && x in t.vars[v]
      {
        if x in t.vars[last] {
          assert last in First(o, k);
        }
      }
    }
  }

  lemma {:induction false} FirstLinksAre(t: Tree, o: Orientation, k: nat)
    requires Oriented(t, o) && k <= |o.order|
    ensures forall l :: l in FirstLinks(t, o, k) <==>
              exists v: nat :: v < |t.nbrs| && 0 < o.rank[v] < k && l == Link(v, o.parent[v])
    decreases k
  {
    if k > 1 {
      FirstLinksAre(t, o, k - 1);
      var last := o.order[k - 1];
      forall v: nat | v < |t.nbrs| && 0 < o.rank[v] < k
        ensures v == last || o.rank[v] < k - 1
      {
        assert o.order[o.rank[v]] == v;
      }
    }
  }

  lemma WholeTree(t: Tree, o: Orientation)
    requires Oriented(t, o)
    ensures var n := |t.nbrs|; First(o, n) == Nodes(t) && FirstVars(t, o, n) == AllVars(t) && FirstLinks(t, o, n) == Links(t)
  {
    var n := |t.nbrs|;
    FirstIs(t, o, n);
    FirstLinksAre(t, o, n);
    assert First(o, n) == Nodes(t);
    forall l | l in FirstLinks(t, o, n)
      ensures l in Links(t)
    {
      var v: nat :| v < n && 0 < o.rank[v] < n && l == Link(v, o.parent[v]);
      NotRoot(t, o, v);
      InLinks(t, o, v, o.parent[v]);
    }
    forall l | l in Links(t)
      ensures l in FirstLinks(t, o, n)
    {
      assert l.1 in t.nbrs[l.0];
      assert o.Edge(l.1, l.0);
      var v := if l.0 != o.order[0] && o.parent[l.0] == l.1 then l.0 else l.1;
      assert l == Link(v, o.parent[v]);
    }
    forall x | x in FirstVars(t, o, n)
      ensures x in AllVars(t)
    {
      var v: nat :| v in First(o, n) && v < |t.vars| && x in t.vars[v];
      WithinAll(t, v);
    }
  }

  // ---- summing out the last node of the order ----

  /** Marginals may be taken in two steps. */
  lemma Tower(card: seq<nat>, all: set<nat>, joint: Assignment -> real, e: set<nat>, d: set<nat>, u: Assignment, g: Assignment -> real)
    requires (forall k :: k in all ==> k < |card|) && d <= e <= all
    requires forall x :: x in Worlds(card, e, d, u) ==> g(x) == MarginalOf(card, all, joint, e, x)
    ensures MarginalOf(card, all, joint, d, u) == Sum(Worlds(card, e, d, u), g)
  {
    hide Space;
    var s, h := Worlds(card, all, d, u), (w: Assignment) => Restrict(w, e);
    forall w | w in s
      ensures h(w) in Worlds(card, e, d, u)
    {
      RestrictLegal(card, all, w, e);
      RestrictTwice(w, d, e);
    }
    forall x | x in Worlds(card, e, d, u)
      ensures g(x) == Sum(Fiber(s, h, x), joint)
    {
      forall w | w in Worlds(card, all, e, x)
        ensures w in Fiber(s, h, x)
      {
        RestrictTwice(w, d, e);
      }
      assert Fiber(s, h, x) == Worlds(card, all, e, x);
    }
    SumByGroups(s, joint, Worlds(card, e, d, u), h, g);
  }

  /** Two assignments, where the first one has the say. */
  function Merged(u: Assignment, y: Assignment): Assignment {
    y + u
  }

  lemma MergedLegal(card: seq<nat>, d: set<nat>, k: set<nat>, e: set<nat>, u: Assignment, y: Assignment)
    requires Legal(card, d, u) && Legal(card, k, y) && d * k == e && Restrict(u, e) == Restrict(y, e)
    ensures Legal(card, d + k, Merged(u, y))
    ensures Restrict(Merged(u, y), d) == u && Restrict(Merged(u, y), k) == y
  {
    var m := Merged(u, y);
    assert m.Keys == d + k;
    forall i | i in k
      ensures i in m && m[i] == y[i]
    {
      if i in d {
        assert i in e && Restrict(u, e)[i] == Restrict(y, e)[i];
      }
    }
  }

  lemma MergedUnique(x: Assignment, x': Assignment, d: set<nat>, k: set<nat>)
    requires x.Keys == x'.Keys == d + k && Restrict(x, d) == Restrict(x', d) && Restrict(x, k) == Restrict(x', k)
    ensures x == x'
  {
    forall i | i in x
      ensures x[i] == x'[i]
    {
      if i in d {
        assert Restrict(x, d)[i] == Restrict(x', d)[i];
      } else {
        assert Restrict(x, k)[i] == Restrict(x', k)[i];
      }
    }
  }

  lemma LegalKeys(card: seq<nat>, vars: set<nat>, a: Assignment)
    requires Legal(card, vars, a)
    ensures a.Keys == vars
  {
  }

  lemma NodeEntry(t: Tree, s: State, w: Assignment, i: nat)
    requires i < |t.vars| && i < |s.nodes|
    ensures NodeValue(t, s, w, i) == Entry(s.nodes[i], Restrict(w, t.vars[i]))
  {
  }

  /** The extensions of u by the variables in k, seen on these variables alone. */
  lemma ExtensionSum(card: seq<nat>, d: set<nat>, k: set<nat>, e: set<nat>, g: Assignment -> real, u: Assignment, f: Assignment -> real)
    requires Legal(card, d, u) && d * k == e && forall i :: i in d + k ==> i < |card|
    requires forall x :: x in Worlds(card, d + k, d, u) ==> f(x) == g(Restrict(x, k))
    ensures Sum(Worlds(card, d + k, d, u), f) == MarginalOf(card, k, g, e, Restrict(u, e))
  {
    hide Space, Restrict, Legal;
    var s, h := Worlds(card, d + k, d, u), (x: Assignment) => Restrict(x, k);
    var a := Restrict(u, e);
    forall x | x in s
      ensures h(x) in Worlds(card, k, e, a) && f(x) == g(h(x)) && x.Keys == d + k
    {
      RestrictLegal(card, d + k, x, k);
      RestrictTwice(x, e, k);
      RestrictTwice(x, e, d);
      LegalKeys(card, d + k, x);
    }
    forall x, x' | x in s && x' in s && h(x) == h(x')
      ensures x == x'
    {
      MergedUnique(x, x', d, k);
    }
    forall y | y in Worlds(card, k, e, a)
      ensures exists x :: x in s && h(x) == y
    {
      MergedLegal(card, d, k, e, u, y);
      assert Merged(u, y) in s;
    }
    SumImage(s, f, Worlds(card, k, e, a), g, h);
  }

  lemma AboveIsWorlds(card: seq<nat>, k: set<nat>, t: Table, e: set<nat>, a: Assignment)
    requires Over(t, card, k)
    ensures Worlds(card, k, e, a) == Above(t, e, a)
  {
    hide Space;
  }

  lemma TableMarginal(card: seq<nat>, k: set<nat>, t: Table, e: set<nat>, a: Assignment)
    requires Over(t, card, k)
    ensures MarginalOf(card, k, At(t), e, a) == Marginal(t, e, a)
  {
    hide Space;
    assert Worlds(card, k, e, a) == Above(t, e, a);
  }

  /** The product of the first k cliques, and of the edges among them. */
  ghost function FirstNodes(t: Tree, o: Orientation, s: State, k: nat, u: Assignment): real
    requires k <= |o.order|
  {
    Product(First(o, k), NodeFactor(t, s, u))
  }

  ghost function FirstSeps(t: Tree, o: Orientation, s: State, k: nat, u: Assignment): real
    requires Oriented(t, o) && k <= |o.order|
  {
    Product(FirstLinks(t, o, k), LinkFactor(t, s, u))
  }

  /** The first k cliques stand for the marginal of the distribution over their variables. */
  ghost predicate PrefixOk(card: seq<nat>, t: Tree, o: Orientation, s: State, joint: Assignment -> real, k: nat, u: Assignment)
    requires Oriented(t, o) && k <= |o.order| && forall i :: i in AllVars(t) ==> i < |card|
  {
    var phi, r := MarginalOf(card, AllVars(t), joint, FirstVars(t, o, k), u), FirstSeps(t, o, s, k, u);
    FirstNodes(t, o, s, k, u) == Times(phi, r) && (phi == 0.0 || r != 0.0)
  }

  ghost predicate AllPrefixesOk(card: seq<nat>, t: Tree, o: Orientation, s: State, joint: Assignment -> real, k: nat)
    requires Oriented(t, o) && k <= |o.order| && forall i :: i in AllVars(t) ==> i < |card|
  {
    forall x :: Legal(card, FirstVars(t, o, k), x) ==> PrefixOk(card, t, o, s, joint, k, x)
  }

  lemma FirstVarsWithin(t: Tree, o: Orientation, k: nat)
    requires Oriented(t, o) && k <= |o.order|
    ensures FirstVars(t, o, k) <= AllVars(t)
  {
    FirstIs(t, o, k);
    forall x | x in FirstVars(t, o, k)
      ensures x in AllVars(t)
    {
      var v: nat :| v in First(o, k) && v < |t.vars| && x in t.vars[v];
      WithinAll(t, v);
    }
  }

  /** The factors of the first k nodes only depend on the variables of these nodes. */
  lemma FirstFactors(t: Tree, o: Orientation, s: State, k: nat, x: Assignment, u: Assignment)
    requires Oriented(t, o) && k <= |o.order| && Restrict(x, FirstVars(t, o, k)) == u
    ensures FirstNodes(t, o, s, k, x) == FirstNodes(t, o, s, k, u)
    ensures FirstSeps(t, o, s, k, x) == FirstSeps(t, o, s, k, u)
  {
    Shape(t, o);
    hide Restrict, Oriented, First, FirstVars, FirstLinks;
    var d := FirstVars(t, o, k);
    forall i | i in First(o, k)
      ensures NodeValue(t, s, x, i) == NodeValue(t, s, u, i)
    {
      FirstIs(t, o, k);
      if i < |t.vars| {
        RestrictTwice(x, t.vars[i], d);
      }
    }
    ProductSame(First(o, k), NodeFactor(t, s, x), NodeFactor(t, s, u));
    forall l | l in FirstLinks(t, o, k)
      ensures LinkValue(t, s, x, l.0, l.1) == LinkValue(t, s, u, l.0, l.1)
    {
      LinkWithin(t, o, k, l);
      RestrictTwice(x, Shared(t, l.0, l.1), d);
    }
    ProductSame(FirstLinks(t, o, k), LinkFactor(t, s, x), LinkFactor(t, s, u));
  }

  lemma LinkWithin(t: Tree, o: Orientation, k: nat, l: (nat, nat))
    requires Oriented(t, o) && k <= |o.order| && l in FirstLinks(t, o, k)
    ensures l.0 < |t.vars| && l.1 < |t.vars| && Shared(t, l.0, l.1) <= FirstVars(t, o, k)
  {
    FirstIs(t, o, k);
    FirstLinksAre(t, o, k);
    var v: nat :| v < |t.nbrs| && 0 < o.rank[v] < k && l == Link(v, o.parent[v]);
    NotRoot(t, o, v);
    assert v in First(o, k);
  }

  /** The next node of the order. */
  lemma NextNode(t: Tree, o: Orientation, k: nat)
    requires Oriented(t, o) && 0 < k < |o.order|
    ensures var v := o.order[k]; var p := o.parent[v];
            && v < |t.vars| && p < |t.vars| && v != p && v !in First(o, k) && p in First(o, k)
            && p in t.nbrs[v] && v in t.nbrs[p] && Link(v, p) !in FirstLinks(t, o, k)
            && First(o, k + 1) == First(o, k) + {v} && FirstVars(t, o, k + 1) == FirstVars(t, o, k) + t.vars[v]
            && FirstLinks(t, o, k + 1) == FirstLinks(t, o, k) + {Link(v, p)}
  {
    var v := o.order[k];
    var p := o.parent[v];
    FirstIs(t, o, k);
    FirstLinksAre(t, o, k);
    NotRoot(t, o, v);
    forall u: nat | u < |t.nbrs| && 0 < o.rank[u] < k
      ensures Link(u, o.parent[u]) != Link(v, p)
    {
      NotRoot(t, o, u);
    }
  }

  /** Its factors. */
  lemma NextFactors(t: Tree, o: Orientation, s: State, k: nat, x: Assignment)
    requires Oriented(t, o) && 0 < k < |o.order|
    ensures var v := o.order[k]; var p := o.parent[v];
            && FirstNodes(t, o, s, k + 1, x) == Times(NodeValue(t, s, x, v), FirstNodes(t, o, s, k, x))
            && FirstSeps(t, o, s, k + 1, x) == Times(LinkValue(t, s, x, Link(v, p).0, Link(v, p).1), FirstSeps(t, o, s, k, x))
  {
    NextNode(t, o, k);
    hide Times, NodeValue, LinkValue, Oriented, First, FirstLinks, FirstVars;
    var v := o.order[k];
    ProductAdd(First(o, k), NodeFactor(t, s, x), v);
    ProductAdd(FirstLinks(t, o, k), LinkFactor(t, s, x), Link(v, o.parent[v]));
  }

  /** The variables that the next clique has in common with those before it. */
  lemma NextShared(t: Tree, o: Orientation, k: nat)
    requires Oriented(t, o) && RunningIntersection(t, o) && 0 < k < |o.order|
    ensures var v := o.order[k];
            o.parent[v] < |t.vars| && v < |t.vars| && FirstVars(t, o, k) * t.vars[v] == Shared(t, v, o.parent[v])
  {
    var v := o.order[k];
    FirstIs(t, o, k);
    NotRoot(t, o, v);
    forall x | x in FirstVars(t, o, k) && x in t.vars[v]
      ensures x in t.vars[o.parent[v]]
    {
      var u: nat :| u in First(o, k) && u < |t.vars| && x in t.vars[u];
      assert t.vars[u] * t.vars[v] <= t.vars[o.parent[v]];
    }
  }

  /** An edge at its value for the assignment u of the variables of the first k nodes. */
  lemma EdgeValue(card: seq<nat>, t: Tree, s: State, v: nat, p: nat, d: set<nat>, u: Assignment, x: Assignment)
    requires Agreed(card, t, s) && v < |t.vars| && p < |t.vars| && p in t.nbrs[v] && v in t.nbrs[p]
    requires Legal(card, d, u) && t.vars[p] <= d && Restrict(x, d) == u
    ensures var e := Shared(t, v, p); var a := Restrict(u, e);
            var b := LinkValue(t, s, x, Link(v, p).0, Link(v, p).1);
            && b == Marginal(s.nodes[v], e, a) == Marginal(s.nodes[p], e, a)
            && (b == 0.0 ==> NodeValue(t, s, u, p) == 0.0)
  {
    hide Marginal;
    var e := Shared(t, v, p);
    var a := Restrict(u, e);
    Variables(card, t, s, v, p);
    RestrictLegal(card, d, u, e);
    RestrictLegal(card, d, u, t.vars[p]);
    RestrictTwice(x, e, d);
    RestrictTwice(u, e, t.vars[p]);
    assert a in Sep(s, v, p);
    MarginalIsNonNegative(s.nodes[p], card, t.vars[p], e, a);
    assert Restrict(u, t.vars[p]) in s.nodes[p];
  }

  /** What is left of the step is arithmetic: p and r are the products over the first k cliques
      and their edges, b is the value of the next edge, and phi the marginal of the distribution. */
  lemma CancelEdge(p: real, b: real, phi: real, r: real)
    requires Times(p, b) == Times(Times(b, r), phi)
    requires (b == 0.0 ==> p == 0.0) && (Times(b, r) == 0.0 ==> phi == 0.0)
    ensures p == Times(phi, r) && (phi == 0.0 || r != 0.0)
  {
    if b != 0.0 {
      assert (b * r) * phi == (phi * r) * b;
    }
  }

  lemma Crosswise(b: real, p: real, phi: real, c: real)
    requires Times(b, p) == Times(phi, c)
    ensures Times(p, b) == Times(c, phi)
  {
  }

  /** Summing out the last clique. */
  lemma StepBack(card: seq<nat>, t: Tree, o: Orientation, s: State, joint: Assignment -> real, k: nat, u: Assignment)
    requires Oriented(t, o) && RunningIntersection(t, o) && 0 < k < |o.order| && Agreed(card, t, s)
    requires forall i :: i in AllVars(t) ==> i < |card|
    requires Legal(card, FirstVars(t, o, k), u)
    requires AllPrefixesOk(card, t, o, s, joint, k + 1)
    ensures PrefixOk(card, t, o, s, joint, k, u)
  {
    NextNode(t, o, k);
    NextShared(t, o, k);
    FirstVarsWithin(t, o, k);
    FirstVarsWithin(t, o, k + 1);
    ParentVars(t, o, k);
    hide Oriented, First, FirstLinks, FirstVars, RunningIntersection, Times, NodeValue, LinkValue, Marginal, Space, Legal, Restrict;
    var v := o.order[k];
    var p, d, all := o.parent[v], FirstVars(t, o, k), AllVars(t);
    var e := Shared(t, v, p);
    var ext := Worlds(card, d + t.vars[v], d, u);
    var phi, r, q := MarginalOf(card, all, joint, d, u), FirstSeps(t, o, s, k, u), FirstNodes(t, o, s, k, u);
    var b := Marginal(s.nodes[v], e, Restrict(u, e));
    var f, g := (x: Assignment) => Entry(s.nodes[v], Restrict(x, t.vars[v])), (x: Assignment) => MarginalOf(card, all, joint, d + t.vars[v], x);
    var h := (x: Assignment) => Times(q, f(x));
    forall x | x in ext
      ensures h(x) == Times(Times(b, r), g(x)) && (Times(b, r) == 0.0 ==> g(x) == 0.0)
    {
      assert PrefixOk(card, t, o, s, joint, k + 1, x);
      NextFactors(t, o, s, k, x);
      FirstFactors(t, o, s, k, x, u);
      EdgeValue(card, t, s, v, p, d, u, x);
      NodeEntry(t, s, x, v);
      Crosswise(f(x), q, g(x), Times(b, r));
    }
    ExtensionSum(card, d, t.vars[v], e, At(s.nodes[v]), u, f);
    TableMarginal(card, t.vars[v], s.nodes[v], e, Restrict(u, e));
    Tower(card, all, joint, d + t.vars[v], d, u, g);
    SumScale(ext, f, h, q);
    SumScale(ext, g, h, Times(b, r));
    if Times(b, r) == 0.0 {
      SumZero(ext, g);
    }
    RestrictSelf(card, d, u);
    EdgeValue(card, t, s, v, p, d, u, u);
    if b == 0.0 {
      ProductZero(First(o, k), NodeFactor(t, s, u));
      assert NodeFactor(t, s, u)(p) == 0.0;
    }
    CancelEdge(q, b, phi, r);
  }

  lemma ParentVars(t: Tree, o: Orientation, k: nat)
    requires Oriented(t, o) && 0 < k < |o.order|
    ensures var p := o.parent[o.order[k]]; p < |t.vars| && t.vars[p] <= FirstVars(t, o, k)
  {
    FirstIs(t, o, k);
    NotRoot(t, o, o.order[k]);
  }

  lemma RestrictSelf(card: seq<nat>, d: set<nat>, u: Assignment)
    requires Legal(card, d, u)
    ensures Restrict(u, d) == u
  {
  }

  /** All cliques together stand for the distribution itself. */
  lemma WholeOk(card: seq<nat>, t: Tree, o: Orientation, s: State, joint: Assignment -> real)
    requires Oriented(t, o) && Represents(card, t, s, joint) && forall i :: i in AllVars(t) ==> i < |card|
    ensures AllPrefixesOk(card, t, o, s, joint, |o.order|)
  {
    WholeTree(t, o);
    Shape(t, o);
    hide Oriented, First, FirstLinks, FirstVars, Times;
    var n, all := |o.order|, AllVars(t);
    forall u | Legal(card, all, u)
      ensures PrefixOk(card, t, o, s, joint, n, u)
    {
      assert Balanced(t, s, u, joint(u));
      forall w | w in Worlds(card, all, all, u)
        ensures w == u
      {
        RestrictSelf(card, all, w);
      }
      RestrictSelf(card, all, u);
      assert Worlds(card, all, all, u) == {u};
      SumOne(u, joint);
    }
  }

  lemma {:induction false} PrefixesOk(card: seq<nat>, t: Tree, o: Orientation, s: State, joint: Assignment -> real, k: nat)
    requires Oriented(t, o) && RunningIntersection(t, o) && 0 < k <= |o.order| && Agreed(card, t, s)
    requires Represents(card, t, s, joint) && forall i :: i in AllVars(t) ==> i < |card|
    ensures AllPrefixesOk(card, t, o, s, joint, k)
    decreases |o.order| - k
  {
    hide PrefixOk, Agreed, Represents, RunningIntersection;
    if k == |o.order| {
      WholeOk(card, t, o, s, joint);
    } else {
      PrefixesOk(card, t, o, s, joint, k + 1);
      forall u | Legal(card, FirstVars(t, o, k), u)
        ensures PrefixOk(card, t, o, s, joint, k, u)
      {
        StepBack(card, t, o, s, joint, k, u);
      }
    }
  }

  /** The root's table is the marginal of the distribution. */
  lemma RootIsMarginal(card: seq<nat>, t: Tree, o: Orientation, s: State, joint: Assignment -> real, x: Assignment)
    requires Oriented(t, o) && RunningIntersection(t, o) && Agreed(card, t, s)
    requires Represents(card, t, s, joint) && forall i :: i in AllVars(t) ==> i < |card|
    requires x in s.nodes[o.order[0]]
    ensures s.nodes[o.order[0]][x] == MarginalOf(card, AllVars(t), joint, t.vars[o.order[0]], x)
  {
    Shape(t, o);
    PrefixesOk(card, t, o, s, joint, 1);
    OneNode(t, o, s, x);
    var r := o.order[0];
    hide Oriented, Times, RunningIntersection, Represents, MarginalOf, Space, First, FirstVars, FirstLinks, FirstNodes, FirstSeps;
    assert Legal(card, t.vars[r], x);
    RestrictSelf(card, t.vars[r], x);
    assert PrefixOk(card, t, o, s, joint, 1, x);
    TimesOne(MarginalOf(card, AllVars(t), joint, t.vars[r], x));
  }

  lemma OneNode(t: Tree, o: Orientation, s: State, x: Assignment)
    requires Oriented(t, o)
    ensures FirstVars(t, o, 1) == t.vars[o.order[0]]
    ensures FirstNodes(t, o, s, 1, x) == NodeValue(t, s, x, o.order[0]) && FirstSeps(t, o, s, 1, x) == 1.0
  {
    Shape(t, o);
    hide Oriented, NodeValue;
    var none: set<nat>, f := {}, NodeFactor(t, s, x);
    assert First(o, 0) == none && First(o, 1) == none + {o.order[0]};
    assert FirstVars(t, o, 0) == {};
    ProductAdd(none, f, o.order[0]);
    TimesOne(f(o.order[0]));
  }

  lemma TimesOne(a: real)
    ensures Times(a, 1.0) == a
  {
  }

  /** The law of the join tree: once neighbours agree, every clique has exactly the marginal of the
      distribution that the tree represents. */
  lemma CliquesAreMarginals(card: seq<nat>, t: Tree, o: Orientation, s: State, joint: Assignment -> real, i: nat, x: Assignment)
    requires Oriented(t, o) && PathCondition(t) && Agreed(card, t, s) && Represents(card, t, s, joint)
    requires forall k :: k in AllVars(t) ==> k < |card|
    requires i < |t.vars| && x in s.nodes[i]
    ensures s.nodes[i][x] == MarginalOf(card, AllVars(t), joint, t.vars[i], x)
  {
    hide PathCondition, Represents, MarginalOf;
    PathsIntersect(t, o);
    var o' := AnyRoot(t, o, i);
    RootIsMarginal(card, t, o', s, joint, x);
  }
}
