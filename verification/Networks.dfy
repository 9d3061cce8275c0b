/** Bayesian networks, and how the tables of a join tree are filled so that they represent one. */
module Networks {
  import opened FiniteSums
  import opened Assignments
  import opened JoinTrees
  import opened JoinTreeMessages
  import opened JoinTreeCalibration

  /** A network: how many values each node has, its parents, the probability of its value given
      those of its parents, and the values that have been observed. */
  datatype Network = Network(card: seq<nat>, parents: seq<set<nat>>, cpt: (nat, nat, Assignment) -> real, evidence: map<nat, nat>) {
    ghost predicate Ok() {
      && |parents| == |card| && (forall n :: 0 <= n < |card| ==> card[n] > 0)
      && (forall n, v, a :: cpt(n, v, a) >= 0.0)
    }
  }

  /** The probability of node n having its value in x. */
  function Conditional(net: Network, x: Assignment, n: nat): real {
    if n in x && n < |net.parents| then net.cpt(n, x[n], Restrict(x, net.parents[n])) else 1.0
  }

  /** 1 if the values agree with what has been observed, 0 if not. */
  ghost function Indicator(net: Network, x: Assignment): real {
    if forall k :: k in x && k in net.evidence ==> x[k] == net.evidence[k] then 1.0 else 0.0
  }

  /** A clique has node n and its parents. */
  predicate Covers(net: Network, vars: set<nat>, n: nat) {
    n < |net.parents| && n in vars && net.parents[n] <= vars
  }

  /** The first of the cliques from i on that has node n and its parents. */
  function HomeFrom(net: Network, t: Tree, n: nat, i: nat): (h: nat)
    requires i <= |t.vars|
    ensures i <= h <= |t.vars| && (h < |t.vars| ==> Covers(net, t.vars[h], n))
    ensures forall j :: i <= j < h ==> !Covers(net, t.vars[j], n)
    decreases |t.vars| - i
  {
    if i == |t.vars| || Covers(net, t.vars[i], n) then i else HomeFrom(net, t, n, i + 1)
  }

  /** The clique whose table takes in the probabilities of node n. */
  function Home(net: Network, t: Tree, n: nat): (h: nat)
    ensures h <= |t.vars|
  {
    HomeFrom(net, t, n, 0)
  }

  /** The nodes whose probabilities go into clique i. */
  ghost function Residents(net: Network, t: Tree, i: nat): set<nat> {
    set n | n in Below(|net.card|) && Home(net, t, n) == i
  }

  ghost function Conditionals(net: Network, x: Assignment): nat -> real {
    (n: nat) => Conditional(net, x, n)
  }

  /** What clique i starts with. */
  ghost function InitialEntry(net: Network, t: Tree, i: nat, x: Assignment): real {
    Times(Indicator(net, x), Product(Residents(net, t, i), Conditionals(net, x)))
  }

  /** The nodes that have a home, which is_join_tree does not check. */
  ghost function Housed(net: Network, t: Tree): set<nat> {
    set n | n in Below(|net.card|) && Home(net, t, n) < |t.vars|
  }

  /** The joint probability of all nodes that have a home, times that of the evidence. */
  ghost function HousedJoint(net: Network, t: Tree): Assignment -> real {
    (w: Assignment) => Times(Indicator(net, w), Product(Housed(net, t), Conditionals(net, w)))
  }

  /** The joint probability of the network with its evidence. */
  ghost function Joint(net: Network): Assignment -> real {
    (w: Assignment) => Times(Indicator(net, w), Product(Below(|net.card|), Conditionals(net, w)))
  }

  /** Some clique has node n and its parents. */
  ghost predicate FamilyTogether(net: Network, t: Tree, n: nat) {
    exists i: nat :: i < |t.vars| && Covers(net, t.vars[i], n)
  }

  /** If every node is in a clique with its parents, nothing is missing. */
  lemma AllHoused(net: Network, t: Tree)
    requires forall n: nat :: n < |net.card| ==> FamilyTogether(net, t, n)
    ensures Housed(net, t) == Below(|net.card|)
    ensures forall w :: HousedJoint(net, t)(w) == Joint(net)(w)
  {
    forall n | n in Below(|net.card|)
      ensures n in Housed(net, t)
    {
      assert FamilyTogether(net, t, n);
      var i: nat :| i < |t.vars| && Covers(net, t.vars[i], n);
    }
  }

  /** In general the distribution of the tree is that of the network without the nodes that have no
      home: it is the right one where it is 0, and where the probabilities left out make up 1. */
  lemma LeftOut(net: Network, t: Tree, w: Assignment)
    ensures var rest := Product(Below(|net.card|) - Housed(net, t), Conditionals(net, w));
            && Joint(net)(w) == Times(HousedJoint(net, t)(w), rest)
            && (HousedJoint(net, t)(w) == Joint(net)(w) <==> HousedJoint(net, t)(w) == 0.0 || rest == 1.0)
  {
    hide Product, Times, Indicator, Conditionals;
    var c := Conditionals(net, w);
    var part, rest := Product(Housed(net, t), c), Product(Below(|net.card|) - Housed(net, t), c);
    ProductSplit(Below(|net.card|), c, Housed(net, t));
    TimesSwap(Indicator(net, w), part, rest);
    UnitFactor(Times(Indicator(net, w), part), rest);
  }

  lemma UnitFactor(a: real, b: real)
    ensures a == Times(a, b) <==> a == 0.0 || b == 1.0
  {
  }

  ghost predicate Initialized(net: Network, t: Tree, s: State) {
    && WellFormed(net.card, t, s)
    && (forall i, x :: 0 <= i < |t.vars| && x in s.nodes[i] ==> s.nodes[i][x] == InitialEntry(net, t, i, x))
    && forall i: nat, j: nat :: i < |t.vars| && j < |t.vars| ==> Sep(s, i, j) == map[]
  }

  lemma ConditionalRestricts(net: Network, w: Assignment, e: set<nat>, n: nat)
    requires Covers(net, e, n) && n in w
    ensures Conditional(net, Restrict(w, e), n) == Conditional(net, w, n)
  {
    RestrictTwice(w, net.parents[n], e);
  }

  /** A resident's factor depends on the variables of its clique only. */
  lemma EntryOfWorld(net: Network, t: Tree, i: nat, w: Assignment)
    requires i < |t.vars| && t.vars[i] <= w.Keys
    ensures InitialEntry(net, t, i, Restrict(w, t.vars[i])) ==
            Times(Indicator(net, Restrict(w, t.vars[i])), Product(Residents(net, t, i), Conditionals(net, w)))
  {
    hide Times, Conditional;
    var x := Restrict(w, t.vars[i]);
    forall n | n in Residents(net, t, i)
      ensures Conditionals(net, x)(n) == Conditionals(net, w)(n)
    {
      ConditionalRestricts(net, w, t.vars[i], n);
    }
    ProductSame(Residents(net, t, i), Conditionals(net, x), Conditionals(net, w));
  }

  /** All evidence is seen by some clique. */
  lemma IndicatorOfWorld(net: Network, t: Tree, w: Assignment, f: nat -> real)
    requires w.Keys == AllVars(t) && |t.vars| == |t.nbrs|
    requires forall i: nat :: i < |t.vars| ==> f(i) == Indicator(net, Restrict(w, t.vars[i]))
    ensures Product(Nodes(t), f) == Indicator(net, w)
  {
    if forall k :: k in w && k in net.evidence ==> w[k] == net.evidence[k] {
      ProductOnes(Nodes(t), f);
    } else {
      var k :| k in w && k in net.evidence && w[k] != net.evidence[k];
      var i: nat :| i in Below(|t.vars|) && i < |t.vars| && k in t.vars[i];
      var x := Restrict(w, t.vars[i]);
      assert k in x && x[k] != net.evidence[k];
      assert f(i) == 0.0;
      ProductZero(Nodes(t), f);
    }
  }

  /** The initial tables represent the network. */
  lemma InitialBalance(net: Network, t: Tree, s: State, w: Assignment)
    requires Initialized(net, t, s) && |t.vars| == |t.nbrs| && AllVars(t) == Below(|net.card|)
    requires Legal(net.card, AllVars(t), w)
    ensures Balanced(t, s, w, HousedJoint(net, t)(w))
  {
    hide Times, Product, Conditional, Indicator, WellFormed, Home, HousedJoint, Initialized, Residents, NodeValue;
    var f := (i: nat) => if i < |t.vars| then Indicator(net, Restrict(w, t.vars[i])) else 1.0;
    var g := (i: nat) => Product(Residents(net, t, i), Conditionals(net, w));
    var h := NodeFactor(t, s, w);
    forall i | i in Nodes(t)
      ensures h(i) == Times(f(i), g(i))
    {
      NodeIsEntry(net, t, s, i, w);
    }
    ProductOfTwo(Nodes(t), f, g, h);
    IndicatorOfWorld(net, t, w, f);
    ResidentsTogether(net, t, w, g);
    NoLinks(net, t, s, w);
    One(NodeProduct(t, s, w));
    HousedAt(net, t, w);
  }

  lemma HousedAt(net: Network, t: Tree, w: Assignment)
    ensures HousedJoint(net, t)(w) == Times(Indicator(net, w), Product(Housed(net, t), Conditionals(net, w)))
  {
  }

  lemma NodeIsEntry(net: Network, t: Tree, s: State, i: nat, w: Assignment)
    requires Initialized(net, t, s) && |t.vars| == |t.nbrs| && AllVars(t) == Below(|net.card|)
    requires Legal(net.card, AllVars(t), w) && i < |t.vars|
    ensures NodeValue(t, s, w, i) == Times(Indicator(net, Restrict(w, t.vars[i])), Product(Residents(net, t, i), Conditionals(net, w)))
  {
    hide Times, Product, InitialEntry, Indicator, Over;
    WithinAll(t, i);
    RestrictLegal(net.card, AllVars(t), w, t.vars[i]);
    InSpace(net.card, s.nodes[i], t.vars[i], Restrict(w, t.vars[i]));
    EntryOfWorld(net, t, i, w);
  }

  /** All housed nodes, clique by clique. */
  lemma ResidentsTogether(net: Network, t: Tree, w: Assignment, g: nat -> real)
    requires |t.vars| == |t.nbrs| && forall i: nat :: g(i) == Product(Residents(net, t, i), Conditionals(net, w))
    ensures Product(Nodes(t), g) == Product(Housed(net, t), Conditionals(net, w))
  {
    hide Product, Conditional, Home;
    var home := (n: nat) => Home(net, t, n);
    forall i | i in Nodes(t)
      ensures g(i) == Product(Fiber(Housed(net, t), home, i), Conditionals(net, w))
    {
      assert Fiber(Housed(net, t), home, i) == Residents(net, t, i);
    }
    ProductByGroups(Housed(net, t), Conditionals(net, w), Nodes(t), home, g);
  }

  /** The edges do not count yet. */
  lemma NoLinks(net: Network, t: Tree, s: State, w: Assignment)
    requires Initialized(net, t, s)
    ensures LinkProduct(t, s, w) == 1.0
  {
    hide Product, WellFormed;
    ProductOnes(Links(t), LinkFactor(t, s, w));
  }

  lemma InSpace(card: seq<nat>, t: Table, vars: set<nat>, x: Assignment)
    requires Over(t, card, vars) && Legal(card, vars, x)
    ensures x in t
  {
  }

  lemma One(a: real)
    ensures Times(a, 1.0) == a
  {
  }
}
