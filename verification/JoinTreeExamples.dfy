/** Small networks: one whose node is left out, so that the answers are wrong, and two whose sums are
    cut off. */
module JoinTreeExamples {
  import opened FiniteSums
  import opened Assignments
  import opened JoinTrees
  import opened JoinTreeMessages
  import opened JoinTreeCalibration
  import opened JoinTreePaths
  import opened JoinTreeMarginals
  import opened JoinTreeSides
  import opened JoinTreeFactors
  import opened JoinTreeRuns
  import opened JoinTreePropagation
  import opened ProbabilityTables
  import opened Networks
  import opened NetworkBounds
  import opened JoinTreeInference

  /** Node 0 is the only parent of node 1. */
  ghost predicate TwoNodes(net: Network) {
    |net.card| == 2 && net.parents == [{}, {0}]
  }

  /** Node 0 has one value, and node 1 has two of probability p each. */
  function ParentAndChild(p: real): Network {
    Network([1, 2], [{}, {0}], (n: nat, v: nat, a: Assignment) => if n == 0 then 1.0 else p, map[])
  }

  /** Node 0 is 0 or 1, and node 1 most likely the same; node 1 has been seen to be 0. */
  function Correlated(): Network {
    Network([2, 2], [{}, {0}],
            (n: nat, v: nat, a: Assignment) => if n == 0 then 0.5 else if 0 in a && a[0] == v then 0.9 else 0.1,
            map[1 := 0])
  }

  /** Two cliques. */
  function TwoCliques(first: set<nat>, second: set<nat>): Tree {
    Tree([{1}, {0}], [first, second])
  }

  function FromFirst(): Orientation {
    Orientation([0, 1], [0, 1], [0, 0])
  }

  lemma TwoOriented(first: set<nat>, second: set<nat>)
    ensures var t, o := TwoCliques(first, second), FromFirst();
            && Oriented(t, o) && RunningIntersection(t, o)
            && o.Edge(1, 0) && o.Child(1, 0) && o.Edge(0, 1) && !o.Child(0, 1)
            && forall i: nat, j: nat :: o.Edge(i, j) ==> (i == 1 && j == 0) || (i == 0 && j == 1)
  {
  }

  lemma TwoOnPaths(first: set<nat>, second: set<nat>)
    ensures PathCondition(TwoCliques(first, second))
  {
    var t := TwoCliques(first, second);
    forall q: seq<nat> | Path(t, q)
      ensures forall i :: 0 <= i < |q| ==> t.vars[q[0]] * t.vars[q[|q| - 1]] <= t.vars[q[i]]
    {
      BelowTwo();
      DistinctFit(q, {0, 1});
    }
  }

  lemma BelowTwo()
    ensures Below(1) == {0} && Below(2) == {0, 1}
  {
    assert Below(1) == Below(0) + {0} && Below(2) == Below(1) + {1};
  }

  lemma TwoVars(first: set<nat>, second: set<nat>)
    requires first + second == {0, 1}
    ensures AllVars(TwoCliques(first, second)) == Below(2) == {0, 1}
  {
    var t := TwoCliques(first, second);
    BelowTwo();
    WithinAll(t, 0);
    WithinAll(t, 1);
  }

  lemma OneTerm(f: nat -> real)
    ensures Sum(Below(1), f) == f(0) && Product(Below(1), f) == f(0)
  {
    BelowTwo();
    SumOne(0 as nat, f);
    ProductPick(Below(1), f, 0);
    assert Below(1) - {0} == {};
  }

  lemma TwoTerms(f: nat -> real)
    ensures Sum(Below(2), f) == f(0) + f(1) && Product(Below(2), f) == Times(f(0), f(1))
  {
    OneTerm(f);
    SumPick(Below(2), f, 1);
    ProductPick(Below(2), f, 1);
    assert Below(2) - {1} == Below(1);
    TimesCommute(f(0), f(1));
  }

  lemma IsSuitable(net: Network, first: set<nat>, second: set<nat>)
    requires net.Ok() && |net.card| == 2 && first + second == {0, 1}
    ensures Suitable(net, TwoCliques(first, second), FromFirst())
  {
    TwoOriented(first, second);
    TwoOnPaths(first, second);
    TwoVars(first, second);
    hide Oriented, PathCondition, Below, AllVars, Network.Ok;
  }

  lemma IsRanked(net: Network)
    requires TwoNodes(net)
    ensures Ranked(net, [0, 1])
  {
    BelowTwo();
  }

  lemma ParentAndChildOk(p: real)
    requires p >= 0.0
    ensures ParentAndChild(p).Ok() && TwoNodes(ParentAndChild(p))
    ensures p <= 0.5 ==> Proper(ParentAndChild(p))
  {
    var net := ParentAndChild(p);
    IsRanked(net);
    hide Ranked, Below;
    if p <= 0.5 {
      forall n: nat, a | n < 2 && Legal(net.card, net.parents[n], a)
        ensures Sum(Below(net.card[n]), Values(net, n, a)) <= 1.0
      {
        OneTerm(Values(net, n, a));
        TwoTerms(Values(net, n, a));
      }
    }
  }

  lemma CorrelatedOk()
    ensures Correlated().Ok() && TwoNodes(Correlated()) && Proper(Correlated())
  {
    var net := Correlated();
    IsRanked(net);
    hide Ranked, Below;
    forall n: nat, a | n < 2 && Legal(net.card, net.parents[n], a)
      ensures Sum(Below(net.card[n]), Values(net, n, a)) <= 1.0
    {
      TwoTerms(Values(net, n, a));
    }
  }

  // ---- cliques {0} and {1}: node 1 lives nowhere ----

  lemma OnlyFirstHoused(net: Network)
    requires TwoNodes(net)
    ensures var t := TwoCliques({0}, {1});
            Housed(net, t) == Residents(net, t, 0) == Below(1) && Residents(net, t, 1) == {} && !AllTogether(net, t)
  {
    var t := TwoCliques({0}, {1});
    assert Covers(net, t.vars[0], 0) && !Covers(net, t.vars[0], 1) && !Covers(net, t.vars[1], 1);
    assert Home(net, t, 0) == 0;
    assert HomeFrom(net, t, 1, 2) == 2 && HomeFrom(net, t, 1, 1) == 2 && Home(net, t, 1) == 2;
    assert !FamilyTogether(net, t, 1);
    BelowTwo();
    hide Home, HomeFrom, Covers, Below;
    forall n: nat
      ensures n in Housed(net, t) <==> n in Below(1)
      ensures n in Residents(net, t, 0) <==> n in Below(1)
    {
    }
  }

  /** The side of either clique is just that clique. */
  lemma LoneSides(first: set<nat>, second: set<nat>)
    ensures var t, o := TwoCliques(first, second), FromFirst();
            && Oriented(t, o) && o.Edge(1, 0) && o.Edge(0, 1)
            && Side(t, o, 1, 0) == {1} && Side(t, o, 0, 1) == {0}
            && VarsOf(t, {1}) == second && VarsOf(t, {0}) == first
  {
    var t, o := TwoCliques(first, second), FromFirst();
    TwoOriented(first, second);
    BelowTwo();
    assert Under(t, o, 1, 1) && !Under(t, o, 1, 0);
    hide Under, Oriented, Below;
    assert Side(t, o, 1, 0) == {1} && Side(t, o, 0, 1) == {0};
  }

  lemma SideSum(card: seq<nat>, t: Tree, o: Orientation, s: State, u: nat, v: nat, a: Assignment)
    requires Known(card, t) && Oriented(t, o) && o.Edge(u, v) && u < |t.vars| && v < |t.vars|
    ensures forall k :: k in VarsOf(t, Side(t, o, u, v)) ==> k < |card|
    ensures Message(card, t, o, s, u, v, a) ==
            Sum(Worlds(card, VarsOf(t, Side(t, o, u, v)), Shared(t, u, v), a), Weight(t, s, Side(t, o, u, v)))
  {
    VarsOfAll(t);
  }

  lemma OneFactor(f: nat -> real, x: nat)
    ensures Product({x}, f) == f(x)
  {
    ProductPick({x}, f, x);
    assert {x} - {x} == {};
  }

  /** The worlds of a single clique, and its weight in them. */
  lemma LoneWeight(card: seq<nat>, t: Tree, s: State, i: nat, w: Assignment)
    requires i < |t.vars| && i < |s.nodes| && Legal(card, t.vars[i], w)
    ensures Weight(t, s, {i})(w) == Entry(s.nodes[i], w)
  {
    OneFactor(NodeFactor(t, s, w), i);
    RestrictSelf(card, t.vars[i], w);
  }

  lemma AnyWorld(card: seq<nat>, vars: set<nat>, a: Assignment)
    requires a == map[] && forall k :: k in vars ==> k < |card|
    ensures Worlds(card, vars, {}, a) == Space(card, vars)
  {
    hide Space;
    forall w | w in Space(card, vars)
      ensures w in Worlds(card, vars, {}, a)
    {
      assert Restrict(w, {}) == map[];
    }
  }

  lemma LoneShape(card: seq<nat>, i: nat)
    requires |card| == 2 && i < 2
    ensures var t := TwoCliques({0}, {1});
            Known(card, t) && |t.vars| == 2 && t.vars[i] == {i} && Shared(t, i, 1 - i) == {}
  {
    TwoVars({0}, {1});
  }

  lemma LoneSum(card: seq<nat>, s: State, i: nat, a: Assignment)
    requires |card| == 2 && i < 2 && a == map[]
    ensures var t, o := TwoCliques({0}, {1}), FromFirst();
            Known(card, t) && Oriented(t, o) && o.Edge(i, 1 - i) &&
            Message(card, t, o, s, i, 1 - i, a) == Sum(Space(card, {i}), Weight(t, s, {i}))
  {
    var t, o := TwoCliques({0}, {1}), FromFirst();
    LoneSides({0}, {1});
    LoneShape(card, i);
    hide Oriented, Side, VarsOf, Message, Weight, Worlds, Space, Known;
    SideSum(card, t, o, s, i, 1 - i, a);
    AnyWorld(card, {i}, a);
  }

  lemma LoneTotal(card: seq<nat>, s: State, i: nat, p: nat -> real)
    requires |card| == 2 && i < 2 && WellFormed(card, TwoCliques({0}, {1}), s)
    requires forall v: nat :: v < card[i] ==> p(v) == Entry(s.nodes[i], Single(i, v))
    ensures Sum(Space(card, {i}), Weight(TwoCliques({0}, {1}), s, {i})) == Sum(Below(card[i]), p)
  {
    var t := TwoCliques({0}, {1});
    LoneShape(card, i);
    hide Space, Restrict, Single, Below, Weight, Known, Legal;
    forall w | w in Space(card, {i})
      ensures Weight(t, s, {i})(w) == At(s.nodes[i])(w)
    {
      LoneWeight(card, t, s, i, w);
    }
    SumSame(Space(card, {i}), Weight(t, s, {i}), At(s.nodes[i]));
    TotalOfOne(card, i, s.nodes[i], p);
  }

  /** What a clique of one node tells the other one is the sum of its entries. */
  lemma LoneMessage(card: seq<nat>, s: State, i: nat, a: Assignment, p: nat -> real)
    requires |card| == 2 && i < 2 && WellFormed(card, TwoCliques({0}, {1}), s) && a == map[]
    requires forall v: nat :: v < card[i] ==> p(v) == Entry(s.nodes[i], Single(i, v))
    ensures var t, o := TwoCliques({0}, {1}), FromFirst();
            Known(card, t) && Oriented(t, o) && o.Edge(i, 1 - i) &&
            Message(card, t, o, s, i, 1 - i, a) == Sum(Below(card[i]), p)
  {
    LoneSum(card, s, i, a);
    LoneTotal(card, s, i, p);
  }

  lemma LoneTwo(card: seq<nat>, s: State, i: nat, a: Assignment, e0: real, e1: real)
    requires |card| == 2 && i < 2 && card[i] == 2 && WellFormed(card, TwoCliques({0}, {1}), s) && |s.nodes| == 2 && a == map[]
    requires Entry(s.nodes[i], Single(i, 0)) == e0 && Entry(s.nodes[i], Single(i, 1)) == e1
    ensures var t, o := TwoCliques({0}, {1}), FromFirst();
            Known(card, t) && Oriented(t, o) && o.Edge(i, 1 - i) && Message(card, t, o, s, i, 1 - i, a) == e0 + e1
  {
    var p := (v: nat) => if v == 0 then e0 else e1;
    hide Single, Entry, WellFormed, Message, Oriented, Known, Below;
    LoneMessage(card, s, i, a, p);
    TwoTerms(p);
  }

  /** The entries that the cliques begin with. */
  lemma LoneInitial(net: Network, i: nat, v: nat)
    requires TwoNodes(net) && i < 2
    ensures InitialEntry(net, TwoCliques({0}, {1}), i, Single(i, v)) ==
            Times(Indicator(net, Single(i, v)), if i == 0 then Conditional(net, Single(0, v), 0) else 1.0)
  {
    OnlyFirstHoused(net);
    hide Single, Housed, Residents, Conditional, Indicator, Times, AllTogether, Below;
    OneTerm(Conditionals(net, Single(i, v)));
  }

  lemma InitialAt(net: Network, t: Tree, s: State, i: nat, n: nat, v: nat)
    requires Initialized(net, t, s) && i < |t.vars| && t.vars[i] == {n} && n < |net.card| && v < net.card[n]
    ensures WellFormed(net.card, t, s) && |s.nodes| == |t.vars|
    ensures Entry(s.nodes[i], Single(n, v)) == InitialEntry(net, t, i, Single(n, v))
  {
    SingleLegal(net.card, n, v);
    hide Space, Single, InitialEntry, Legal, Restrict;
    InSpace(net.card, s.nodes[i], {n}, Single(n, v));
  }

  lemma SingleLegal(card: seq<nat>, n: nat, v: nat)
    requires n < |card| && v < card[n]
    ensures Legal(card, {n}, Single(n, v))
  {
  }

  lemma LoneEntry(net: Network, s: State, i: nat, v: nat)
    requires TwoNodes(net) && Initialized(net, TwoCliques({0}, {1}), s) && i < 2 && v < net.card[i]
    ensures WellFormed(net.card, TwoCliques({0}, {1}), s) && |s.nodes| == 2
    ensures Entry(s.nodes[i], Single(i, v)) ==
            Times(Indicator(net, Single(i, v)), if i == 0 then Conditional(net, Single(0, v), 0) else 1.0)
  {
    var t := TwoCliques({0}, {1});
    assert t.vars[i] == {i} && |t.vars| == 2;
    hide TwoCliques, Initialized, WellFormed, Entry, Single, InitialEntry, Indicator, Conditional, Times;
    InitialAt(net, t, s, i, i, v);
    LoneInitial(net, i, v);
  }

  lemma CorrelatedFirst(i: nat, v: nat)
    requires i < 2
    ensures Indicator(Correlated(), Single(i, v)) == (if i == 1 && v != 0 then 0.0 else 1.0)
    ensures Conditional(Correlated(), Single(0, v), 0) == 0.5
  {
  }

  lemma CorrelatedEntry(s: State, i: nat, v: nat)
    requires Initialized(Correlated(), TwoCliques({0}, {1}), s) && i < 2 && v < 2
    ensures WellFormed([2, 2], TwoCliques({0}, {1}), s) && |s.nodes| == 2
    ensures Entry(s.nodes[i], Single(i, v)) == if i == 0 then 0.5 else if v == 0 then 1.0 else 0.0
  {
    CorrelatedOk();
    hide Initialized, Proper, TwoNodes, Entry, Single, Indicator, Conditional, WellFormed;
    LoneEntry(Correlated(), s, i, v);
    CorrelatedFirst(i, v);
  }

  /** Each clique tells the other one 1. */
  lemma CorrelatedMessage(s: State, i: nat, a: Assignment)
    requires Initialized(Correlated(), TwoCliques({0}, {1}), s) && i < 2 && a == map[]
    ensures var t, o := TwoCliques({0}, {1}), FromFirst();
            Known([2, 2], t) && Oriented(t, o) && o.Edge(i, 1 - i) && Message([2, 2], t, o, s, i, 1 - i, a) == 1.0
  {
    hide *;
    CorrelatedEntry(s, i, 0);
    CorrelatedEntry(s, i, 1);
    if i == 0 {
      LoneTwo([2, 2], s, i, a, 0.5, 0.5);
    } else {
      LoneTwo([2, 2], s, i, a, 1.0, 0.0);
    }
  }

  /** The first message carries what its side has to say, and the answer repeats what it was told. */
  lemma BothCarried(card: seq<nat>, s: State, a: Assignment)
    requires |card| == 2
    ensures var t, o := TwoCliques({0}, {1}), FromFirst();
            Known(card, t) && Oriented(t, o) && o.Edge(1, 0) && o.Edge(0, 1)
            && Carried(card, t, o, s, 1, 0, a) == Message(card, t, o, s, 1, 0, a)
            && Carried(card, t, o, s, 0, 1, a) == Times(Message(card, t, o, s, 1, 0, a), Message(card, t, o, s, 0, 1, a))
  {
    TwoOriented({0}, {1});
    LoneShape(card, 0);
    hide Oriented, Message, Known, RunningIntersection;
  }

  lemma CorrelatedCarried(s: State, a: Assignment)
    requires Initialized(Correlated(), TwoCliques({0}, {1}), s) && a == map[]
    ensures var t, o := TwoCliques({0}, {1}), FromFirst();
            Known([2, 2], t) && Oriented(t, o) && o.Edge(1, 0) && o.Edge(0, 1) &&
            Carried([2, 2], t, o, s, 1, 0, a) == Carried([2, 2], t, o, s, 0, 1, a) == 1.0
  {
    hide *;
    BothCarried([2, 2], s, a);
    CorrelatedMessage(s, 0, a);
    CorrelatedMessage(s, 1, a);
    UnitTimes();
  }

  lemma UnitTimes()
    ensures Times(1.0, 1.0) == 1.0
  {
  }

  lemma OnlyEmpty(card: seq<nat>, a: Assignment)
    requires Legal(card, {}, a)
    ensures a == map[]
  {
  }

  /** Only these two messages are passed. */
  lemma TwoMessages(card: seq<nat>, s: State, i: nat, j: nat, a: Assignment)
    requires |card| == 2
    ensures var t, o := TwoCliques({0}, {1}), FromFirst();
            Known(card, t) && Oriented(t, o) && o.Edge(1, 0) && o.Edge(0, 1) &&
            (TooGreat(card, t, o, s, i, j, a) ==>
               a == map[] && (Carried(card, t, o, s, 1, 0, a) > 1.0 || Carried(card, t, o, s, 0, 1, a) > 1.0))
  {
    var t, o := TwoCliques({0}, {1}), FromFirst();
    TwoOriented({0}, {1});
    LoneShape(card, 0);
    LoneShape(card, 1);
    hide Oriented, Carried, Known, Several, RunningIntersection;
    if TooGreat(card, t, o, s, i, j, a) {
      OnlyEmpty(card, a);
    }
  }

  /** Nothing is cut off. */
  lemma CorrelatedUncut(s: State, i: nat, j: nat, a: Assignment)
    requires Initialized(Correlated(), TwoCliques({0}, {1}), s)
    ensures var t, o := TwoCliques({0}, {1}), FromFirst();
            Known([2, 2], t) && Oriented(t, o) && !TooGreat([2, 2], t, o, s, i, j, a)
  {
    hide *;
    TwoMessages([2, 2], s, i, j, a);
    if a == map[] {
      CorrelatedCarried(s, a);
    }
  }

  // ---- what the answers are, and what they should be ----

  function World(x: nat, y: nat): Assignment {
    map[0 := x, 1 := y]
  }

  lemma WorldIs(w: Assignment, v: nat)
    requires Legal([2, 2], {0, 1}, w) && Restrict(w, {0}) == Single(0, v)
    ensures w == World(v, 0) || w == World(v, 1)
  {
    assert 0 in w && 0 in Restrict(w, {0}) && w[0] == v;
    assert w == World(w[0], w[1]);
  }

  lemma WorldLegal(v: nat, y: nat)
    requires v < 2 && y < 2
    ensures Legal([2, 2], {0, 1}, World(v, y)) && Restrict(World(v, y), {0}) == Single(0, v)
    ensures World(v, y)[1] == y && World(v, y)[0] == v
  {
    assert World(v, y).Keys == {0, 1};
  }

  lemma WorldsOf(v: nat, vars: set<nat>, s: set<Assignment>)
    requires v < 2 && vars == {0, 1} && (forall k :: k in vars ==> k < 2) && s == Worlds([2, 2], vars, {0}, Single(0, v))
    ensures s == {World(v, 0)} + {World(v, 1)} && World(v, 1) !in {World(v, 0)}
  {
    hide World, Restrict, Single;
    WorldLegal(v, 0);
    WorldLegal(v, 1);
    forall w | w in s
      ensures w in {World(v, 0)} + {World(v, 1)}
    {
      WorldIs(w, v);
    }
  }

  /** The probability of a value of node 0 is a sum of two. */
  lemma ValueIsSum(net: Network, joint: Assignment -> real, v: nat)
    requires net.card == [2, 2] && v < 2
    ensures ValueProbability(net, joint, 0)(v) == joint(World(v, 0)) + joint(World(v, 1))
  {
    BelowTwo();
    var s := Worlds([2, 2], Below(2), {0}, Single(0, v));
    hide World, Restrict, Single, Space, Worlds;
    WorldsOf(v, Below(2), s);
    SumOne(World(v, 0), joint);
    SumAdd({World(v, 0)}, joint, World(v, 1));
  }

  lemma CorrelatedFactors(v: nat, y: nat)
    requires v < 2 && y < 2
    ensures var net, w := Correlated(), World(v, y);
            && Conditional(net, w, 0) == 0.5 && Conditional(net, w, 1) == (if v == y then 0.9 else 0.1)
            && Indicator(net, w) == if y == 0 then 1.0 else 0.0
  {
    var w := World(v, y);
    assert w.Keys == {0, 1} && w[0] == v && w[1] == y;
    assert 0 in Restrict(w, {0}) && Restrict(w, {0})[0] == v;
  }

  lemma CorrelatedJoints(v: nat, y: nat)
    requires v < 2 && y < 2
    ensures var net, t, w := Correlated(), TwoCliques({0}, {1}), World(v, y);
            && HousedJoint(net, t)(w) == (if y == 0 then 0.5 else 0.0)
            && Joint(net)(w) == if y != 0 then 0.0 else if v == 0 then 0.45 else 0.05
  {
    var net, t, w := Correlated(), TwoCliques({0}, {1}), World(v, y);
    CorrelatedOk();
    OnlyFirstHoused(net);
    CorrelatedFactors(v, y);
    HousedAt(net, t, w);
    hide World, Housed, Residents, Product, Below, Conditional, Indicator, AllTogether, Proper, Restrict;
    OneTerm(Conditionals(net, w));
    TwoTerms(Conditionals(net, w));
  }

  /** What the tree stands for, and what the network says. */
  lemma CorrelatedValues(v: nat)
    requires v < 2
    ensures var net, t := Correlated(), TwoCliques({0}, {1});
            && ValueProbability(net, HousedJoint(net, t), 0)(v) == 0.5
            && ValueProbability(net, Joint(net), 0)(v) == if v == 0 then 0.45 else 0.05
  {
    var net, t := Correlated(), TwoCliques({0}, {1});
    hide World, HousedJoint, Joint, ValueProbability;
    CorrelatedJoints(v, 0);
    CorrelatedJoints(v, 1);
    ValueIsSum(net, HousedJoint(net, t), v);
    ValueIsSum(net, Joint(net), v);
  }

  lemma SeenHalf(c: nat, v: nat)
    requires c < 2 && v < 2
    ensures var net, t := Correlated(), TwoCliques({0}, {1});
            AllVars(t) == Below(|net.card|) && SeenProbability(net, t, HousedJoint(net, t), c, 0)(v) == 0.5
  {
    TwoVars({0}, {1});
    CorrelatedValues(v);
    hide ValueProbability, HousedJoint, Below, AllVars;
  }

  lemma HalfAndHalf(p: nat -> real)
    requires p(0) == 0.5 && p(1) == 0.5
    ensures Sum(Below(2), p) == 1.0
  {
    TwoTerms(p);
  }

  lemma CorrelatedSuits()
    ensures Suitable(Correlated(), TwoCliques({0}, {1}), FromFirst()) && Proper(Correlated())
    ensures !AllTogether(Correlated(), TwoCliques({0}, {1}))
  {
    CorrelatedOk();
    IsSuitable(Correlated(), {0}, {1});
    OnlyFirstHoused(Correlated());
  }

  /** With cliques {0} and {1}, no clique has node 1 together with its parent. That is a join tree all
      the same; but node 1 is left out, and so the answer for node 0 is 0.5 and 0.5, where the network
      and the evidence say 0.45 to 0.05. */
  method NodeLeftOut() returns (ok: bool, dist: array<real>)
    ensures Suitable(Correlated(), TwoCliques({0}, {1}), FromFirst()) && Proper(Correlated())
    ensures !AllTogether(Correlated(), TwoCliques({0}, {1}))
    ensures ok && dist.Length == 2 && dist[0] == dist[1] == 0.5
    ensures ValueProbability(Correlated(), Joint(Correlated()), 0)(0) == 0.45
    ensures ValueProbability(Correlated(), Joint(Correlated()), 0)(1) == 0.05
  {
    var net, t := Correlated(), TwoCliques({0}, {1});
    ghost var o, log, s0, c := FromFirst(), [], State([], map[]), 0;
    CorrelatedSuits();
    CorrelatedValues(0);
    CorrelatedValues(1);
    hide Suitable, Proper, AllTogether, Initialized, TooGreat, HousedJoint, Joint, ValueProbability, SeenProbability, Oriented, Known, Times;
    var b;
    b, log, s0 := CreateJoinTree(net, t, o);
    forall i: nat, j: nat, a
      ensures !TooGreat(net.card, t, o, s0, i, j, a)
    {
      CorrelatedUncut(s0, i, j, a);
    }
    ok, dist, c := Probability(net, b, 0, HousedJoint(net, t));
    SeenHalf(c, 0);
    SeenHalf(c, 1);
    HalfAndHalf(SeenProbability(net, t, HousedJoint(net, t), c, 0));
    WholeOf(dist[0]);
    WholeOf(dist[1]);
  }

  lemma WholeOf(share: real)
    ensures Times(share, 1.0) == share
  {
  }

  lemma BothCovered()
    ensures AllTogether(Correlated(), TwoCliques({0}, {0, 1}))
  {
    var net, t := Correlated(), TwoCliques({0}, {0, 1});
    assert Covers(net, t.vars[1], 0) && Covers(net, t.vars[1], 1);
    hide Covers;
    forall n: nat | n < 2
      ensures FamilyTogether(net, t, n)
    {
      assert Covers(net, t.vars[1], n);
    }
  }

  lemma CorrelatedTogether()
    ensures Suitable(Correlated(), TwoCliques({0}, {0, 1}), FromFirst()) && Proper(Correlated())
    ensures AllTogether(Correlated(), TwoCliques({0}, {0, 1}))
  {
    CorrelatedOk();
    BothCovered();
    hide Suitable, Proper, AllTogether, TwoNodes;
    IsSuitable(Correlated(), {0}, {0, 1});
  }

  lemma CorrelatedSeen(c: nat)
    requires c < 2
    ensures var net, t := Correlated(), TwoCliques({0}, {0, 1});
            AllVars(t) == Below(|net.card|) &&
            var p := SeenProbability(net, t, Joint(net), c, 0);
            p(0) == 0.45 && p(1) == 0.05 && Sum(Below(2), p) == 0.5
  {
    var net, t := Correlated(), TwoCliques({0}, {0, 1});
    TwoVars({0}, {0, 1});
    CorrelatedOk();
    CorrelatedValues(0);
    CorrelatedValues(1);
    hide ValueProbability, Joint, HousedJoint, Below, AllVars, Proper, SeenProbability;
    JoinTreeInference.AllSeen(net, t, c, 0);
    TwoTerms(SeenProbability(net, t, Joint(net), c, 0));
  }

  lemma HalfOf(share: real, x: real)
    requires Times(share, 0.5) == x
    ensures share == 2.0 * x
  {
  }

  /** With cliques {0} and {0, 1} the same network gives the right answer: 0.9 to 0.1. */
  method Posterior() returns (ok: bool, dist: array<real>)
    ensures ok && dist.Length == 2 && dist[0] == 0.9 && dist[1] == 0.1
  {
    var net, t := Correlated(), TwoCliques({0}, {0, 1});
    ghost var o, log, s0, c := FromFirst(), [], State([], map[]), 0;
    CorrelatedTogether();
    hide Suitable, Proper, AllTogether, Initialized, TooGreat, HousedJoint, Joint, ValueProbability, SeenProbability, Oriented, Known, Times;
    var b;
    b, log, s0 := CreateJoinTree(net, t, o);
    ok, dist, c := Probability(net, b, 0, Joint(net));
    CorrelatedSeen(c);
    HalfOf(dist[0], 0.45);
    HalfOf(dist[1], 0.05);
  }

  // ---- sums that are cut off ----

  /** A proper network all of whose probabilities add up to 1 is cut off, too, if a node is left out:
      the clique of node 1 tells the other one 2. */
  lemma ProperButCutOff(s: State, a: Assignment)
    requires Initialized(ParentAndChild(0.5), TwoCliques({0}, {1}), s) && a == map[]
    ensures var net, t, o := ParentAndChild(0.5), TwoCliques({0}, {1}), FromFirst();
            && Suitable(net, t, o) && Proper(net) && !AllTogether(net, t)
            && Known([1, 2], t) && Oriented(t, o) && TooGreat([1, 2], t, o, s, 1, 0, a)
  {
    var net := ParentAndChild(0.5);
    ParentAndChildOk(0.5);
    IsSuitable(net, {0}, {1});
    OnlyFirstHoused(net);
    TellsTwo(s, a);
    SeveralValues(a);
    TwoOriented({0}, {1});
    hide *;
    IsTooGreat([1, 2], TwoCliques({0}, {1}), FromFirst(), s, a);
  }

  lemma ParentEntry(s: State, v: nat)
    requires Initialized(ParentAndChild(0.5), TwoCliques({0}, {1}), s) && v < 2
    ensures WellFormed([1, 2], TwoCliques({0}, {1}), s) && |s.nodes| == 2 && Entry(s.nodes[1], Single(1, v)) == 1.0
  {
    ParentAndChildOk(0.5);
    NoEvidence(0.5, Single(1, v));
    hide Initialized, Proper, TwoNodes, Entry, Single, Indicator, Conditional, WellFormed;
    LoneEntry(ParentAndChild(0.5), s, 1, v);
  }

  lemma NoEvidence(p: real, w: Assignment)
    ensures Indicator(ParentAndChild(p), w) == 1.0
  {
  }

  lemma TellsTwo(s: State, a: Assignment)
    requires Initialized(ParentAndChild(0.5), TwoCliques({0}, {1}), s) && a == map[]
    ensures var t, o := TwoCliques({0}, {1}), FromFirst();
            Known([1, 2], t) && Oriented(t, o) && o.Edge(1, 0) && Message([1, 2], t, o, s, 1, 0, a) == 2.0
  {
    hide *;
    ParentEntry(s, 0);
    ParentEntry(s, 1);
    LoneTwo([1, 2], s, 1, a, 1.0, 1.0);
  }

  lemma SeveralValues(a: Assignment)
    requires a == map[]
    ensures var t := TwoCliques({0}, {1}); Known([1, 2], t) && |t.vars| == 2 && Shared(t, 1, 0) == {} && Legal([1, 2], {}, a)
    ensures Several([1, 2], TwoCliques({0}, {1}), 1, 0, a)
  {
    LoneShape([1, 2], 1);
    hide Space, Restrict, Known;
    AnyWorld([1, 2], {1}, a);
    SpaceOfOne([1, 2], 1);
  }

  lemma IsTooGreat(card: seq<nat>, t: Tree, o: Orientation, s: State, a: Assignment)
    requires Known(card, t) && Oriented(t, o) && o.Child(1, 0) && o.Edge(1, 0) && |t.vars| == 2
    requires Legal(card, Shared(t, 1, 0), a) && Several(card, t, 1, 0, a) && Message(card, t, o, s, 1, 0, a) > 1.0
    ensures TooGreat(card, t, o, s, 1, 0, a)
  {
    hide Oriented, Known, Message, Several;
  }

  // ---- cliques {0} and {0, 1} ----

  lemma OneWorldIs(w: Assignment)
    requires Legal([1, 2], {0, 1}, w)
    ensures w == World(0, 0) || w == World(0, 1)
  {
    assert w[0] == 0;
    assert w == World(0, w[1]);
  }

  lemma OneWorldLegal(v: nat)
    requires v < 2
    ensures Legal([1, 2], {0, 1}, World(0, v)) && Restrict(World(0, v), {0}) == map[0 := 0] && World(0, v)[1] == v
  {
    assert World(0, v).Keys == {0, 1};
  }

  lemma TwoWorlds(a: Assignment, vars: set<nat>, s: set<Assignment>)
    requires a == map[0 := 0] && vars == {0, 1} && (forall k :: k in vars ==> k < 2) && s == Worlds([1, 2], vars, {0}, a)
    ensures s == {World(0, 0)} + {World(0, 1)} && World(0, 1) !in {World(0, 0)}
  {
    hide World, Restrict;
    OneWorldLegal(0);
    OneWorldLegal(1);
    forall w | w in s
      ensures w in {World(0, 0)} + {World(0, 1)}
    {
      OneWorldIs(w);
    }
  }

  lemma FamilyHoused(p: real)
    ensures var net, t := ParentAndChild(p), TwoCliques({0}, {0, 1});
            AllTogether(net, t) && Residents(net, t, 1) == {1}
  {
    var net, t := ParentAndChild(p), TwoCliques({0}, {0, 1});
    assert Covers(net, t.vars[0], 0) && Covers(net, t.vars[1], 0) && Covers(net, t.vars[1], 1) && !Covers(net, t.vars[0], 1);
    assert Home(net, t, 0) == 0;
    assert HomeFrom(net, t, 1, 1) == 1 && Home(net, t, 1) == 1;
    hide Covers, Home;
    forall n: nat | n < 2
      ensures FamilyTogether(net, t, n)
    {
      assert Covers(net, t.vars[1], n);
    }
  }

  lemma ChildFactor(p: real, v: nat)
    requires v < 2
    ensures Conditionals(ParentAndChild(p), World(0, v))(1) == p && Indicator(ParentAndChild(p), World(0, v)) == 1.0
  {
  }

  /** Both entries of the second clique are p. */
  lemma EntryIsP(p: real, s: State, v: nat)
    requires v < 2 && Initialized(ParentAndChild(p), TwoCliques({0}, {0, 1}), s)
    ensures Weight(TwoCliques({0}, {0, 1}), s, {1})(World(0, v)) == p
  {
    var net, t, w := ParentAndChild(p), TwoCliques({0}, {0, 1}), World(0, v);
    OneWorldLegal(v);
    LoneWeight(net.card, t, s, 1, w);
    InSpace(net.card, s.nodes[1], {0, 1}, w);
    FamilyHoused(p);
    ChildFactor(p, v);
    hide World, Residents, Conditionals, Indicator, Product, Restrict, Weight, AllTogether;
    OneFactor(Conditionals(net, w), 1);
    TimesCommute(1.0, p);
    TimesOne(p);
  }

  lemma SecondSum(s: State, a: Assignment)
    requires a == map[0 := 0]
    ensures var t, o := TwoCliques({0}, {0, 1}), FromFirst();
            Known([1, 2], t) && Oriented(t, o) && o.Edge(1, 0) &&
            Message([1, 2], t, o, s, 1, 0, a) == Sum({World(0, 0)} + {World(0, 1)}, Weight(t, s, {1}))
  {
    var t, o := TwoCliques({0}, {0, 1}), FromFirst();
    SharesFirst();
    LoneSides({0}, {0, 1});
    hide World, Restrict, Space, Worlds, Weight, Message, Known, Oriented, Side, VarsOf;
    SideSum([1, 2], t, o, s, 1, 0, a);
    TwoWorlds(a, {0, 1}, Worlds([1, 2], {0, 1}, {0}, a));
  }

  lemma TellsTwice(p: real, s: State, a: Assignment)
    requires a == map[0 := 0] && Initialized(ParentAndChild(p), TwoCliques({0}, {0, 1}), s)
    ensures var t, o := TwoCliques({0}, {0, 1}), FromFirst();
            Known([1, 2], t) && Oriented(t, o) && o.Edge(1, 0) && Message([1, 2], t, o, s, 1, 0, a) == p + p
  {
    hide *;
    var f := Weight(TwoCliques({0}, {0, 1}), s, {1});
    SecondSum(s, a);
    EntryIsP(p, s, 0);
    EntryIsP(p, s, 1);
    OneWorldLegal(0);
    OneWorldLegal(1);
    SumOne(World(0, 0), f);
    SumAdd({World(0, 0)}, f, World(0, 1));
  }

  lemma SharesFirst()
    ensures var t := TwoCliques({0}, {0, 1}); Known([1, 2], t) && Shared(t, 1, 0) == {0} && |t.vars| == 2
  {
    TwoVars({0}, {0, 1});
  }

  lemma SeveralWorlds(a: Assignment)
    requires a == map[0 := 0]
    ensures Known([1, 2], TwoCliques({0}, {0, 1})) && Several([1, 2], TwoCliques({0}, {0, 1}), 1, 0, a) && Legal([1, 2], {0}, a)
  {
    SharesFirst();
    hide World, Space, Restrict, Worlds, Known;
    TwoWorlds(a, {0, 1}, Worlds([1, 2], {0, 1}, {0}, a));
    assert |{World(0, 0)} + {World(0, 1)}| == 2;
  }

  /** A network whose node 1 has two values of probability p each, slightly more than 0.5:
      node_cpt_filled_out accepts it as long as the sum is within 0.00001 of 1. The message of clique
      {0, 1} to clique {0} is the sum 2 p, and is cut off. */
  lemma SumCutOff(p: real, s: State, a: Assignment)
    requires 0.5 < p <= 0.500005
    requires a == map[0 := 0] && Initialized(ParentAndChild(p), TwoCliques({0}, {0, 1}), s)
    ensures var net, t, o := ParentAndChild(p), TwoCliques({0}, {0, 1}), FromFirst();
            && Suitable(net, t, o) && AllTogether(net, t) && Oriented(t, o)
            && Known([1, 2], t) && TooGreat([1, 2], t, o, s, 1, 0, a)
  {
    ParentAndChildOk(p);
    IsSuitable(ParentAndChild(p), {0}, {0, 1});
    FamilyHoused(p);
    SharesFirst();
    TellsTwice(p, s, a);
    SeveralWorlds(a);
    TwoOriented({0}, {0, 1});
    hide *;
    IsTooGreat([1, 2], TwoCliques({0}, {0, 1}), FromFirst(), s, a);
  }

  /** The probabilities of node 1 add up to 2 p, which is within the tolerance. */
  lemma WithinTolerance(p: real, a: Assignment)
    requires 0.5 < p <= 0.500005
    ensures 1.0 < Sum(Below(2), Values(ParentAndChild(p), 1, a)) <= 1.00001
  {
    hide Below, Sum;
    TwoTerms(Values(ParentAndChild(p), 1, a));
  }
}
