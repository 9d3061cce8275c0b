/** What a message says: the sum, over all variables on the sender's side of an edge, of the product
    of the tables with which that side began. */
module JoinTreeFactors {
  import opened FiniteSums
  import opened Assignments
  import opened JoinTrees
  import opened JoinTreeMessages
  import opened JoinTreeCalibration
  import opened JoinTreePaths
  import opened JoinTreeMarginals
  import opened JoinTreeSides

  /** All variables are known. */
  ghost predicate Known(card: seq<nat>, t: Tree) {
    forall k :: k in AllVars(t) ==> k < |card|
  }

  /** The product of the tables of the cliques in a. */
  ghost function Weight(t: Tree, s: State, a: set<nat>): Assignment -> real {
    (w: Assignment) => Product(a, NodeFactor(t, s, w))
  }

  /** The sum of that product over all assignments to the variables of a that agree with u. */
  ghost function Summed(card: seq<nat>, t: Tree, s: State, a: set<nat>, e: set<nat>, u: Assignment): real
    requires Known(card, t) && |t.vars| == |t.nbrs|
  {
    VarsOfAll(t);
    MarginalOf(card, VarsOf(t, a), Weight(t, s, a), e, u)
  }

  /** What the side of u tells v about the variables of their edge. */
  ghost function Message(card: seq<nat>, t: Tree, o: Orientation, s: State, u: nat, v: nat, a: Assignment): real
    requires Known(card, t) && Oriented(t, o) && o.Edge(u, v)
  {
    Summed(card, t, s, Side(t, o, u, v), Shared(t, u, v), a)
  }

  /** What the neighbours tell i, for an assignment to its variables. */
  ghost function Incoming(card: seq<nat>, t: Tree, o: Orientation, s: State, i: nat, x: Assignment): nat -> real
    requires Known(card, t) && Oriented(t, o) && i < |t.vars|
  {
    (d: nat) => if o.Edge(d, i) then Message(card, t, o, s, d, i, Restrict(x, Shared(t, d, i))) else 1.0
  }

  /** The first table of i, times what the neighbours in d tell. */
  ghost function Combined(card: seq<nat>, t: Tree, o: Orientation, s: State, i: nat, d: set<nat>, x: Assignment): real
    requires Known(card, t) && Oriented(t, o) && i < |t.vars|
  {
    Times(NodeValue(t, s, x, i), Product(d, Incoming(card, t, o, s, i, x)))
  }

  /** A product of tables depends on their variables only. */
  lemma WeightDepends(t: Tree, s: State, a: set<nat>, w: Assignment, d: set<nat>)
    requires VarsOf(t, a) <= d
    ensures Weight(t, s, a)(w) == Weight(t, s, a)(Restrict(w, d))
  {
    hide Restrict, Product;
    forall i | i in a
      ensures NodeValue(t, s, w, i) == NodeValue(t, s, Restrict(w, d), i)
    {
      if i < |t.vars| {
        assert t.vars[i] <= d by {
          forall k | k in t.vars[i]
            ensures k in VarsOf(t, a)
          {
          }
        }
        RestrictTwice(w, t.vars[i], d);
      }
    }
    ProductSame(a, NodeFactor(t, s, w), NodeFactor(t, s, Restrict(w, d)));
  }

  lemma WeightSplit(t: Tree, s: State, a: set<nat>, b: set<nat>, w: Assignment)
    requires a !! b
    ensures Weight(t, s, a + b)(w) == Times(Weight(t, s, a)(Restrict(w, VarsOf(t, a))), Weight(t, s, b)(Restrict(w, VarsOf(t, b))))
  {
    WeightDepends(t, s, a, w, VarsOf(t, a));
    WeightDepends(t, s, b, w, VarsOf(t, b));
    hide Product, Times, Restrict, NodeValue;
    ProductSplit(a + b, NodeFactor(t, s, w), a);
    assert a + b - a == b;
  }

  /** Two functions of overlapping variables: what they have in common, c has. */
  lemma Graft(card: seq<nat>, a: set<nat>, b: set<nat>, c: set<nat>, f: Assignment -> real, g: Assignment -> real,
              h: Assignment -> real, x: Assignment)
    requires (forall k :: k in a ==> k < |card|) && (forall k :: k in b ==> k < |card|) && c <= a && a * b <= c && Legal(card, c, x)
    requires forall w :: h(w) == Times(f(Restrict(w, a)), g(Restrict(w, b)))
    ensures MarginalOf(card, a + b, h, c, x) == Times(MarginalOf(card, a, f, c, x), MarginalOf(card, b, g, c * b, Restrict(x, c * b)))
  {
    hide Space, Restrict, Times, Legal;
    var m := MarginalOf(card, b, g, c * b, Restrict(x, c * b));
    var total := (y: Assignment) => Times(m, f(y));
    assert a * b == c * b;
    forall y | y in Worlds(card, a, c, x)
      ensures total(y) == MarginalOf(card, a + b, h, a, y)
    {
      RestrictTwice(y, c * b, c);
      RestrictTwice(x, c * b, c);
      GraftOne(card, a, b, f, g, h, y);
    }
    Tower(card, a + b, h, a, c, x, total);
    SumScale(Worlds(card, a, c, x), f, total, m);
    TimesCommute(m, MarginalOf(card, a, f, c, x));
  }

  lemma GraftOne(card: seq<nat>, a: set<nat>, b: set<nat>, f: Assignment -> real, g: Assignment -> real,
                 h: Assignment -> real, y: Assignment)
    requires (forall k :: k in a ==> k < |card|) && (forall k :: k in b ==> k < |card|) && Legal(card, a, y)
    requires forall w :: h(w) == Times(f(Restrict(w, a)), g(Restrict(w, b)))
    ensures MarginalOf(card, a + b, h, a, y) == Times(MarginalOf(card, b, g, a * b, Restrict(y, a * b)), f(y))
  {
    hide Space, Restrict, Times, Legal;
    var worlds, gb := Worlds(card, a + b, a, y), (w: Assignment) => g(Restrict(w, b));
    ExtensionSum(card, a, b, a * b, g, y, gb);
    SumScale(worlds, gb, h, f(y));
    TimesCommute(f(y), Sum(worlds, gb));
  }

  /** Around a node the sums factor: the sum over all its neighbours' sides is the product of what
      the neighbours tell. */
  lemma {:induction false} Gather(card: seq<nat>, t: Tree, o: Orientation, s: State, i: nat, d: set<nat>, x: Assignment)
    requires Known(card, t) && Oriented(t, o) && RunningIntersection(t, o) && i < |t.vars| && d <= t.nbrs[i]
    requires Legal(card, t.vars[i], x)
    ensures Summed(card, t, s, Around(t, o, i, d), t.vars[i], x) == Combined(card, t, o, s, i, d, x)
    decreases |d|
  {
    AllAround(t, o, i);
    Shape(t, o);
    hide Oriented, RunningIntersection, Around, Summed, Combined, Known, Legal;
    if d == {} {
      GatherNone(card, t, o, s, i, x);
    } else {
      var j :| j in d;
      var rest := d - {j};
      assert d == rest + {j};
      Gather(card, t, o, s, i, rest, x);
      IsEdge(t, o, j, i);
      GatherOne(card, t, o, s, i, rest, j, x);
    }
  }

  lemma IsEdge(t: Tree, o: Orientation, j: nat, i: nat)
    requires Oriented(t, o) && i < |t.nbrs| && j in t.nbrs[i]
    ensures o.Edge(j, i) && j < |t.nbrs|
  {
  }

  lemma GatherNone(card: seq<nat>, t: Tree, o: Orientation, s: State, i: nat, x: Assignment)
    requires Known(card, t) && Oriented(t, o) && i < |t.vars| && Legal(card, t.vars[i], x)
    ensures Summed(card, t, s, {i}, t.vars[i], x) == Combined(card, t, o, s, i, {}, x)
  {
    var f, vars := NodeFactor(t, s, x), t.vars[i];
    VarsOfAll(t);
    assert VarsOf(t, {i}) == vars;
    WorldsOfAll(card, vars, x);
    hide Space, NodeValue, Times, Restrict;
    SumOne(x, Weight(t, s, {i}));
    var none: set<nat> := {};
    ProductAdd(none, f, i);
    assert none + {i} == {i};
  }

  lemma WorldsOfAll(card: seq<nat>, vars: set<nat>, x: Assignment)
    requires Legal(card, vars, x)
    ensures Worlds(card, vars, vars, x) == {x}
  {
    RestrictSelf(card, vars, x);
    forall w | w in Worlds(card, vars, vars, x)
      ensures w == x
    {
      RestrictSelf(card, vars, w);
    }
  }

  lemma GatherOne(card: seq<nat>, t: Tree, o: Orientation, s: State, i: nat, d: set<nat>, j: nat, x: Assignment)
    requires Known(card, t) && Oriented(t, o) && RunningIntersection(t, o) && i < |t.vars| && j < |t.vars| && o.Edge(j, i) && j !in d
    requires Legal(card, t.vars[i], x) && Summed(card, t, s, Around(t, o, i, d), t.vars[i], x) == Combined(card, t, o, s, i, d, x)
    ensures Summed(card, t, s, Around(t, o, i, d + {j}), t.vars[i], x) == Combined(card, t, o, s, i, d + {j}, x)
  {
    var a, b := Around(t, o, i, d), Side(t, o, j, i);
    AroundMore(t, o, i, d, j);
    AroundShares(t, o, i, d, j);
    VarsOfSum(t, a, b);
    VarsOfAll(t);
    hide Oriented, RunningIntersection, Around, Side, VarsOf, Times, Legal, Space, Restrict, Product, NodeValue, MarginalOf;
    forall w: Assignment
      ensures Weight(t, s, a + b)(w) == Times(Weight(t, s, a)(Restrict(w, VarsOf(t, a))), Weight(t, s, b)(Restrict(w, VarsOf(t, b))))
    {
      WeightSplit(t, s, a, b, w);
    }
    Graft(card, VarsOf(t, a), VarsOf(t, b), t.vars[i], Weight(t, s, a), Weight(t, s, b), Weight(t, s, a + b), x);
    CombinedMore(card, t, o, s, i, d, j, x);
  }

  /** What the nodes gathered so far have in common with the next neighbour's side. */
  lemma AroundShares(t: Tree, o: Orientation, i: nat, d: set<nat>, j: nat)
    requires Oriented(t, o) && RunningIntersection(t, o) && i < |t.vars| && o.Edge(j, i) && j !in d
    ensures var a, b := VarsOf(t, Around(t, o, i, d)), VarsOf(t, Side(t, o, j, i));
            t.vars[i] <= a && a * b <= t.vars[i] && t.vars[i] * b == Shared(t, j, i)
  {
    AroundMore(t, o, i, d, j);
    SidesSplit(t, o, j, i);
    SidesShare(t, o, j, i);
    AllAround(t, o, i);
    var a := Around(t, o, i, d);
    AroundGrows(t, o, i, {}, d);
    hide Oriented, RunningIntersection, Side, Around;
    assert a <= Side(t, o, i, j);
    VarsGrow(t, {i}, a);
    VarsGrow(t, a, Side(t, o, i, j));
    VarsInclude(t, {i}, i);
    VarsInclude(t, Side(t, o, i, j), i);
    VarsInclude(t, Side(t, o, j, i), j);
    hide VarsOf;
    Overlap(t.vars[i], VarsOf(t, a), VarsOf(t, Side(t, o, i, j)), VarsOf(t, Side(t, o, j, i)), t.vars[j]);
  }

  lemma Overlap(v: set<nat>, a: set<nat>, c: set<nat>, b: set<nat>, w: set<nat>)
    requires v <= a <= c && w <= b && b * c == w * v
    ensures a * b <= v && v * b == w * v
  {
    forall k | k in a * b
      ensures k in v
    {
      assert k in b * c;
    }
    forall k | k in v * b
      ensures k in w * v
    {
      assert k in b * c;
    }
  }

  lemma AroundGrows(t: Tree, o: Orientation, i: nat, d: set<nat>, d': set<nat>)
    requires Oriented(t, o) && i < |t.nbrs| && d <= d'
    ensures Around(t, o, i, d) <= Around(t, o, i, d') <= Nodes(t)
  {
    hide Oriented, Toward;
    forall n | n in Around(t, o, i, d)
      ensures n in Around(t, o, i, d')
    {
    }
  }

  lemma VarsGrow(t: Tree, a: set<nat>, a': set<nat>)
    requires a <= a'
    ensures VarsOf(t, a) <= VarsOf(t, a')
  {
  }

  lemma VarsInclude(t: Tree, a: set<nat>, i: nat)
    requires i in a && i < |t.vars|
    ensures t.vars[i] <= VarsOf(t, a)
  {
  }

  lemma CombinedMore(card: seq<nat>, t: Tree, o: Orientation, s: State, i: nat, d: set<nat>, j: nat, x: Assignment)
    requires Known(card, t) && Oriented(t, o) && i < |t.vars| && j < |t.vars| && o.Edge(j, i) && j !in d
    ensures Combined(card, t, o, s, i, d + {j}, x) ==
            Times(Combined(card, t, o, s, i, d, x), Message(card, t, o, s, j, i, Restrict(x, Shared(t, j, i))))
  {
    hide Times, Product, NodeValue, Summed, Restrict, Oriented;
    var f, m := Incoming(card, t, o, s, i, x), Message(card, t, o, s, j, i, Restrict(x, Shared(t, j, i)));
    ProductAdd(d, f, j);
    TimesCommute(m, Product(d, f));
    TimesSwap(NodeValue(t, s, x, i), Product(d, f), m);
  }

  /** A message, from what the sender has been told. */
  lemma MessageIs(card: seq<nat>, t: Tree, o: Orientation, s: State, i: nat, j: nat, a: Assignment, g: Assignment -> real)
    requires Known(card, t) && Oriented(t, o) && RunningIntersection(t, o) && o.Edge(i, j)
    requires forall x :: Legal(card, t.vars[i], x) ==> g(x) == Combined(card, t, o, s, i, t.nbrs[i] - {j}, x)
    requires forall k :: k in t.vars[i] ==> k < |card|
    ensures MarginalOf(card, t.vars[i], g, Shared(t, i, j), a) == Message(card, t, o, s, i, j, a)
  {
    SideIsAround(t, o, i, j);
    SidesSplit(t, o, i, j);
    VarsOfAll(t);
    VarsInclude(t, Side(t, o, i, j), i);
    hide Oriented, RunningIntersection, Side, Around, VarsOf, Combined, Legal;
    var side := Side(t, o, i, j);
    forall x | x in Worlds(card, t.vars[i], Shared(t, i, j), a)
      ensures g(x) == MarginalOf(card, VarsOf(t, side), Weight(t, s, side), t.vars[i], x)
    {
      Gather(card, t, o, s, i, t.nbrs[i] - {j}, x);
    }
    Tower(card, VarsOf(t, side), Weight(t, s, side), t.vars[i], Shared(t, i, j), a, g);
  }
}
