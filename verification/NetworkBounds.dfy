/** Why no marginal of a proper Bayesian network is cut off: a sum of products of conditional
    probabilities does not exceed 1, on either side of any edge of the join tree. */
module NetworkBounds {
  import opened FiniteSums
  import opened Assignments
  import opened JoinTrees
  import opened JoinTreeMessages
  import opened JoinTreeCalibration
  import opened JoinTreePaths
  import opened JoinTreeMarginals
  import opened JoinTreeSides
  import opened JoinTreeFactors
  import opened JoinTreeRuns
  import opened Networks

  /** An order of the nodes in which parents come before their children. */
  ghost predicate Ranked(net: Network, rank: seq<nat>) {
    && |rank| == |net.card| == |net.parents|
    && (forall n :: 0 <= n < |net.card| ==> net.parents[n] <= Below(|net.card|))
    && forall n, p :: 0 <= n < |net.card| && p in net.parents[n] && p < |rank| ==> rank[p] < rank[n]
  }

  /** The probabilities of the values of a node, given those of its parents. */
  ghost function Values(net: Network, n: nat, a: Assignment): nat -> real {
    (v: nat) => net.cpt(n, v, a)
  }

  /** The parents do not form a cycle, and the probabilities of each node are probabilities. */
  ghost predicate Proper(net: Network) {
    && net.Ok() && (exists rank :: Ranked(net, rank))
    && forall n: nat, a :: n < |net.card| && Legal(net.card, net.parents[n], a) ==> Sum(Below(net.card[n]), Values(net, n, a)) <= 1.0
  }

  lemma {:induction false} SumMonotone<T(!new)>(s: set<T>, f: T -> real, g: T -> real)
    requires forall x :: x in s ==> f(x) <= g(x)
    ensures Sum(s, f) <= Sum(s, g)
    decreases |s|
  {
    if x :| x in s {
      SumPick(s, f, x);
      SumPick(s, g, x);
      SumMonotone(s - {x}, f, g);
    }
  }

  lemma TimesMonotone(a: real, a': real, b: real, b': real)
    requires 0.0 <= a <= a' && 0.0 <= b <= b'
    ensures 0.0 <= Times(a, b) <= Times(a', b')
  {
    assert a * b <= a' * b <= a' * b';
  }

  lemma {:induction false} ProductMonotone<T(!new)>(s: set<T>, f: T -> real, g: T -> real)
    requires forall x :: x in s ==> 0.0 <= f(x) <= g(x)
    ensures 0.0 <= Product(s, f) <= Product(s, g)
    decreases |s|
  {
    hide Times;
    if x :| x in s {
      ProductPick(s, f, x);
      ProductPick(s, g, x);
      ProductMonotone(s - {x}, f, g);
      TimesMonotone(f(x), g(x), Product(s - {x}, f), Product(s - {x}, g));
    }
  }

  /** Leaving out factors that are at most 1 does not make a product smaller. */
  lemma ProductOfPart<T(!new)>(s: set<T>, part: set<T>, f: T -> real)
    requires part <= s && forall x :: x in s ==> 0.0 <= f(x) <= 1.0
    ensures 0.0 <= Product(s, f) <= Product(part, f)
  {
    hide Times;
    var ones := (x: T) => 1.0;
    ProductSplit(s, f, part);
    ProductMonotone(part, f, f);
    ProductMonotone(s - part, f, ones);
    ProductOnes(s - part, ones);
    TimesMonotone(Product(part, f), Product(part, f), Product(s - part, f), 1.0);
    TimesOne(Product(part, f));
  }

  /** The factors of the nodes in f. */
  ghost function Factors(net: Network, f: set<nat>): Assignment -> real {
    (w: Assignment) => Product(f, Conditionals(net, w))
  }

  lemma ConditionalBounded(net: Network, all: set<nat>, w: Assignment, n: nat)
    requires Proper(net) && n < |net.card| && Legal(net.card, all, w) && n in all && net.parents[n] <= all
    ensures 0.0 <= Conditional(net, w, n) <= 1.0
  {
    var a := Restrict(w, net.parents[n]);
    RestrictLegal(net.card, all, w, net.parents[n]);
    hide Sum, Restrict, Legal;
    TermBelowSum(Below(net.card[n]), Values(net, n, a), w[n]);
  }

  /** The node of f that comes last in the order is no parent of the others. */
  lemma {:induction false} LastNode(net: Network, rank: seq<nat>, f: set<nat>) returns (r: nat)
    requires Ranked(net, rank) && f != {} && forall n :: n in f ==> n < |net.card|
    ensures r in f && forall n :: n in f ==> rank[n] <= rank[r]
    decreases |f|
  {
    var x :| x in f;
    var rest := f - {x};
    r := x;
    if rest != {} {
      r := LastNode(net, rank, rest);
      if rank[r] < rank[x] {
        r := x;
      }
    }
    assert forall n :: n in f ==> n == x || n in rest;
  }

  /** The values of the one variable that is still free. */
  lemma ValuesSum(net: Network, all: set<nat>, r: nat, y: Assignment)
    requires Proper(net) && r !in all && r < |net.card| && net.parents[r] <= all && Legal(net.card, all, y)
    requires forall k :: k in all ==> k < |net.card|
    ensures Sum(Worlds(net.card, all + {r}, all, y), (w: Assignment) => Conditional(net, w, r)) <= 1.0
  {
    var a := Restrict(y, net.parents[r]);
    RestrictLegal(net.card, all, y, net.parents[r]);
    var s, h, g := Worlds(net.card, all + {r}, all, y), (w: Assignment) => if r in w then w[r] else 0, (w: Assignment) => Conditional(net, w, r);
    forall w | w in s
      ensures h(w) in Below(net.card[r]) && g(w) == Values(net, r, a)(h(w)) && w.Keys == all + {r}
    {
      RestrictTwice(w, net.parents[r], all);
      LegalKeys(net.card, all + {r}, w);
    }
    hide Space, Sum;
    forall w, w' | w in s && w' in s && h(w) == h(w')
      ensures w == w'
    {
      SameWorld(all, r, y, w, w');
    }
    forall v | v in Below(net.card[r])
      ensures exists w :: w in s && h(w) == v
    {
      var w := y[r := v];
      ExtendedLegal(net.card, all, r, y, v);
      assert w in s && h(w) == v;
    }
    SumImage(s, g, Below(net.card[r]), Values(net, r, a), h);
  }

  lemma SameWorld(all: set<nat>, r: nat, y: Assignment, w: Assignment, w': Assignment)
    requires Restrict(w, all) == y && Restrict(w', all) == y && w.Keys == w'.Keys == all + {r} && w[r] == w'[r]
    ensures w == w'
  {
    forall k | k in w
      ensures w[k] == w'[k]
    {
      if k != r {
        assert Restrict(w, all)[k] == Restrict(w', all)[k];
      }
    }
  }

  lemma ExtendedLegal(card: seq<nat>, all: set<nat>, r: nat, y: Assignment, v: nat)
    requires Legal(card, all, y) && r !in all && r < |card| && v < card[r]
    ensures Legal(card, all + {r}, y[r := v]) && Restrict(y[r := v], all) == y
  {
  }

  /** Summing out a node that is no parent of the others. */
  lemma SumOutOne(net: Network, all: set<nat>, f: set<nat>, r: nat, y: Assignment)
    requires Proper(net) && r !in all && r !in f && f <= all && r < |net.card| && (forall k :: k in all ==> k < |net.card|)
    requires net.parents[r] <= all && (forall n :: n in f ==> net.parents[n] <= all) && Legal(net.card, all, y)
    ensures MarginalOf(net.card, all + {r}, Factors(net, f + {r}), all, y) <= Factors(net, f)(y)
  {
    var s, g := Worlds(net.card, all + {r}, all, y), (w: Assignment) => Conditional(net, w, r);
    ValuesSum(net, all, r, y);
    hide Space, Sum, Product, Times, Conditional, Legal, Restrict;
    var c := Factors(net, f)(y);
    forall w | w in s
      ensures Factors(net, f + {r})(w) == Times(c, g(w))
    {
      OneMoreFactor(net, all, f, r, y, w);
    }
    SumScale(s, g, Factors(net, f + {r}), c);
    forall n | n in f
      ensures 0.0 <= Conditionals(net, y)(n) <= 1.0
    {
      ConditionalBounded(net, all, y, n);
    }
    ProductMonotone(f, Conditionals(net, y), Conditionals(net, y));
    AtMost(c, Sum(s, g));
  }

  lemma AtMost(c: real, x: real)
    requires c >= 0.0 && x <= 1.0
    ensures Times(c, x) <= c
  {
    assert c * x <= c * 1.0;
  }

  lemma OneMoreFactor(net: Network, all: set<nat>, f: set<nat>, r: nat, y: Assignment, w: Assignment)
    requires |net.parents| == |net.card| && r !in f && f <= all && Restrict(w, all) == y && all <= w.Keys
    requires (forall k :: k in all ==> k < |net.card|) && forall n :: n in f ==> net.parents[n] <= all
    ensures Factors(net, f + {r})(w) == Times(Factors(net, f)(y), Conditional(net, w, r))
  {
    hide Times, Product;
    forall n | n in f
      ensures Conditional(net, w, n) == Conditional(net, y, n)
    {
      RestrictTwice(w, net.parents[n], all);
    }
    ProductSame(f, Conditionals(net, w), Conditionals(net, y));
    ProductAdd(f, Conditionals(net, w), r);
    TimesCommute(Conditional(net, w, r), Product(f, Conditionals(net, w)));
  }

  /** Summing the product of the probabilities of all free nodes over their values gives at most 1,
      however the other nodes are fixed. */
  lemma {:induction false} SumOut(net: Network, rank: seq<nat>, all: set<nat>, e: set<nat>, u: Assignment)
    requires Proper(net) && Ranked(net, rank) && e <= all && (forall k :: k in all ==> k < |net.card|)
    requires forall n :: n in all - e ==> net.parents[n] <= all
    ensures MarginalOf(net.card, all, Factors(net, all - e), e, u) <= 1.0
    decreases |all - e|
  {
    var f := all - e;
    if f == {} {
      NothingFree(net, all, e, u);
    } else {
      var r := LastNode(net, rank, f);
      var all', f' := all - {r}, f - {r};
      assert all' + {r} == all && f' + {r} == f && all' - e == f';
      hide Proper, MarginalOf, Factors;
      SumOut(net, rank, all', e, u);
      var g := (y: Assignment) => MarginalOf(net.card, all' + {r}, Factors(net, f' + {r}), all', y);
      Tower(net.card, all, Factors(net, f), all', e, u, g);
      SumOutEach(net, all', e, f', r, u, g);
    }
  }

  lemma SumOutEach(net: Network, all: set<nat>, e: set<nat>, f: set<nat>, r: nat, u: Assignment, g: Assignment -> real)
    requires Proper(net) && r !in all && r !in f && f <= all && r < |net.card| && (forall k :: k in all ==> k < |net.card|)
    requires net.parents[r] <= all && forall n :: n in f ==> net.parents[n] <= all
    requires forall y :: g(y) == MarginalOf(net.card, all + {r}, Factors(net, f + {r}), all, y)
    ensures Sum(Worlds(net.card, all, e, u), g) <= MarginalOf(net.card, all, Factors(net, f), e, u)
  {
    hide Proper, Factors, Legal, Space;
    forall y | y in Worlds(net.card, all, e, u)
      ensures g(y) <= Factors(net, f)(y)
    {
      SumOutOne(net, all, f, r, y);
    }
    SumMonotone(Worlds(net.card, all, e, u), g, Factors(net, f));
  }

  lemma NothingFree(net: Network, all: set<nat>, e: set<nat>, u: Assignment)
    requires e <= all && all - e == {} && forall k :: k in all ==> k < |net.card|
    ensures MarginalOf(net.card, all, Factors(net, all - e), e, u) <= 1.0
  {
    assert all == e + (all - e);
    var s := Worlds(net.card, all, e, u);
    hide Space, Conditional;
    forall w | w in s
      ensures w == u
    {
      RestrictSelf(net.card, all, w);
    }
    if w :| w in s {
      assert s == {u};
      SumOne(u, Factors(net, all - e));
    } else {
      assert s == {};
    }
  }

  // ---- what a message carries ----

  /** Every clique has the families that live in it, and every node lives somewhere. */
  ghost predicate AllTogether(net: Network, t: Tree) {
    forall n: nat :: n < |net.card| ==> FamilyTogether(net, t, n)
  }

  /** The nodes that live in one of the cliques in a. */
  ghost function HousedIn(net: Network, t: Tree, a: set<nat>): set<nat> {
    set n | n in Below(|net.card|) && Home(net, t, n) in a
  }

  lemma HousedInside(net: Network, t: Tree, a: set<nat>, n: nat)
    requires n in HousedIn(net, t, a) && forall i :: i in a ==> i < |t.vars|
    ensures n < |net.card| && n < |net.parents| && n in VarsOf(t, a) && net.parents[n] <= VarsOf(t, a)
  {
    VarsInclude(t, a, Home(net, t, n));
  }

  /** The product of the first tables of some cliques is at most the product of the probabilities
      that went into them. */
  lemma WeightBounded(net: Network, t: Tree, s: State, a: set<nat>, w: Assignment)
    requires Proper(net) && Initialized(net, t, s) && (forall i :: i in a ==> i < |t.vars|)
    requires Legal(net.card, VarsOf(t, a), w) && forall k :: k in VarsOf(t, a) ==> k < |net.card|
    ensures 0.0 <= Weight(t, s, a)(w) <= Factors(net, HousedIn(net, t, a))(w)
  {
    var g := (i: nat) => Product(Residents(net, t, i), Conditionals(net, w));
    var home := (n: nat) => Home(net, t, n);
    hide Product, Conditional, Home, Times, Initialized, Proper, Legal;
    forall i | i in a
      ensures 0.0 <= NodeValue(t, s, w, i) <= g(i)
      ensures g(i) == Product(Fiber(HousedIn(net, t, a), home, i), Conditionals(net, w))
    {
      NodeBounded(net, t, s, a, i, w);
      assert Fiber(HousedIn(net, t, a), home, i) == Residents(net, t, i);
    }
    ProductMonotone(a, NodeFactor(t, s, w), g);
    ProductByGroups(HousedIn(net, t, a), Conditionals(net, w), a, home, g);
  }

  lemma NodeBounded(net: Network, t: Tree, s: State, a: set<nat>, i: nat, w: Assignment)
    requires Proper(net) && Initialized(net, t, s) && i in a && (forall i :: i in a ==> i < |t.vars|)
    requires Legal(net.card, VarsOf(t, a), w) && forall k :: k in VarsOf(t, a) ==> k < |net.card|
    ensures 0.0 <= NodeValue(t, s, w, i) <= Product(Residents(net, t, i), Conditionals(net, w))
  {
    var x, c := Restrict(w, t.vars[i]), Conditionals(net, w);
    VarsInclude(t, a, i);
    RestrictLegal(net.card, VarsOf(t, a), w, t.vars[i]);
    InSpace(net.card, s.nodes[i], t.vars[i], x);
    EntryOfWorld(net, t, i, w);
    hide Product, Times, Home, Proper, Over, Restrict, Legal, VarsOf, Conditional;
    forall n | n in Residents(net, t, i)
      ensures 0.0 <= c(n) <= 1.0
    {
      HousedInside(net, t, a, n);
      ConditionalBounded(net, VarsOf(t, a), w, n);
    }
    ProductMonotone(Residents(net, t, i), c, c);
    IndicatorBound(net, x, Product(Residents(net, t, i), c));
  }

  lemma IndicatorBound(net: Network, x: Assignment, p: real)
    requires p >= 0.0
    ensures 0.0 <= Times(Indicator(net, x), p) <= p
  {
  }

  /** The variables of one side that the edge does not have are all housed on that side. */
  lemma SideIsHoused(net: Network, t: Tree, o: Orientation, i: nat, j: nat, k: nat)
    requires Oriented(t, o) && RunningIntersection(t, o) && o.Edge(i, j) && i < |t.vars| && j < |t.vars|
    requires AllTogether(net, t) && AllVars(t) == Below(|net.card|)
    requires k in VarsOf(t, Side(t, o, i, j)) - Shared(t, i, j)
    ensures k in HousedIn(net, t, Side(t, o, i, j))
  {
    VarsOfAll(t);
    SidesSplit(t, o, i, j);
    SidesShare(t, o, i, j);
    Shape(t, o);
    hide Oriented, RunningIntersection, Side, Home;
    assert k in AllVars(t);
    assert FamilyTogether(net, t, k);
    Housing(net, t, k);
    var h := Home(net, t, k);
    assert h in Nodes(t);
    OfVars(t, Side(t, o, j, i), h, k);
  }

  lemma OfVars(t: Tree, a: set<nat>, h: nat, k: nat)
    requires h < |t.vars| && k in t.vars[h]
    ensures h in a ==> k in VarsOf(t, a)
  {
  }

  lemma Housing(net: Network, t: Tree, n: nat)
    requires FamilyTogether(net, t, n)
    ensures Home(net, t, n) < |t.vars| && n in t.vars[Home(net, t, n)]
  {
    var i: nat :| i < |t.vars| && Covers(net, t.vars[i], n);
  }

  /** What one side of an edge has to say is never more than 1. */
  lemma MessageBounded(net: Network, t: Tree, o: Orientation, s: State, i: nat, j: nat, a: Assignment)
    requires Proper(net) && Initialized(net, t, s) && Oriented(t, o) && RunningIntersection(t, o) && o.Edge(i, j)
    requires AllTogether(net, t) && AllVars(t) == Below(|net.card|)
    ensures Known(net.card, t) && 0.0 <= Message(net.card, t, o, s, i, j, a) <= 1.0
  {
    Shape(t, o);
    IsNeighbour(t, o, i, j);
    SidesSplit(t, o, i, j);
    VarsOfAll(t);
    VarsInclude(t, Side(t, o, i, j), i);
    var side, e := Side(t, o, i, j), Shared(t, i, j);
    var all := VarsOf(t, side);
    var f := all - e;
    forall k | k in f
      ensures k in HousedIn(net, t, side) && k < |net.card| && net.parents[k] <= all
    {
      SideIsHoused(net, t, o, i, j, k);
      HousedInside(net, t, side, k);
    }
    hide Oriented, RunningIntersection, Side, Initialized, Proper, Legal, Space, HousedIn, VarsOf, Weight;
    forall w | w in Worlds(net.card, all, e, a)
      ensures 0.0 <= Weight(t, s, side)(w) <= Factors(net, f)(w)
    {
      WeightBounded(net, t, s, side, w);
      FactorsBounded(net, t, side, f, w);
    }
    SumNonNegative(Worlds(net.card, all, e, a), Weight(t, s, side));
    SumMonotone(Worlds(net.card, all, e, a), Weight(t, s, side), Factors(net, f));
    var rank := RankOf(net);
    SumOut(net, rank, all, e, a);
  }

  lemma RankOf(net: Network) returns (rank: seq<nat>)
    requires Proper(net)
    ensures Ranked(net, rank)
  {
    rank :| Ranked(net, rank);
  }

  lemma FactorsBounded(net: Network, t: Tree, a: set<nat>, f: set<nat>, w: Assignment)
    requires Proper(net) && Legal(net.card, VarsOf(t, a), w) && (forall i :: i in a ==> i < |t.vars|)
    requires f <= HousedIn(net, t, a) && forall k :: k in VarsOf(t, a) ==> k < |net.card|
    ensures Factors(net, HousedIn(net, t, a))(w) <= Factors(net, f)(w)
  {
    hide Product, Conditional, Proper, VarsOf, Legal, HousedIn;
    forall n | n in HousedIn(net, t, a)
      ensures 0.0 <= Conditionals(net, w)(n) <= 1.0
    {
      HousedInside(net, t, a, n);
      ConditionalBounded(net, VarsOf(t, a), w, n);
    }
    ProductOfPart(HousedIn(net, t, a), f, Conditionals(net, w));
  }

  /** So no message is too great. */
  lemma NeverTooGreat(net: Network, t: Tree, o: Orientation, s: State, i: nat, j: nat, a: Assignment)
    requires Proper(net) && Initialized(net, t, s) && Oriented(t, o) && RunningIntersection(t, o)
    requires AllTogether(net, t) && AllVars(t) == Below(|net.card|)
    ensures Known(net.card, t) && !TooGreat(net.card, t, o, s, i, j, a)
  {
    hide RunningIntersection, Initialized, Proper, AllTogether, Message, Times, Legal;
    if o.Edge(i, j) {
      OneWay(t, o, i, j);
      MessageBounded(net, t, o, s, i, j, a);
      MessageBounded(net, t, o, s, j, i, a);
      TimesMonotone(Message(net.card, t, o, s, j, i, a), 1.0, Message(net.card, t, o, s, i, j, a), 1.0);
      TimesOne(1.0);
    }
  }

  /** No value of a node has a probability greater than 1. */
  lemma ValueBounded(net: Network, n: nat, u: Assignment)
    requires Proper(net) && n < |net.card|
    ensures MarginalOf(net.card, Below(|net.card|), Joint(net), {n}, u) <= 1.0
  {
    var all := Below(|net.card|);
    var f := all - {n};
    var rank := RankOf(net);
    hide Proper, Space, Legal, Product, Times, Conditional;
    forall w | w in Worlds(net.card, all, {n}, u)
      ensures Joint(net)(w) <= Factors(net, f)(w)
    {
      forall m | m in all
        ensures 0.0 <= Conditionals(net, w)(m) <= 1.0
      {
        ParentsKnown(net, rank, m);
        ConditionalBounded(net, all, w, m);
      }
      ProductOfPart(all, f, Conditionals(net, w));
      IndicatorBound(net, w, Product(all, Conditionals(net, w)));
    }
    SumMonotone(Worlds(net.card, all, {n}, u), Joint(net), Factors(net, f));
    forall m | m in f
      ensures net.parents[m] <= all
    {
      ParentsKnown(net, rank, m);
    }
    SumOut(net, rank, all, {n}, u);
  }

  lemma ParentsKnown(net: Network, rank: seq<nat>, m: nat)
    requires Ranked(net, rank) && m < |net.card|
    ensures m < |net.parents| && net.parents[m] <= Below(|net.card|)
  {
  }
}
