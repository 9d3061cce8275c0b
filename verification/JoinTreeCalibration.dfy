/** What every run of messages keeps: neighbouring cliques come to agree, and the distribution that
    the tables stand for stays the same. */
module JoinTreeCalibration {
  import opened FiniteSums
  import opened Assignments
  import opened JoinTrees
  import opened JoinTreeMessages

  // ---- agreement ----

  /** What is known about the edge between node c and its parent p. After the first message it
      keeps the marginal of c, and p has no entries where that is zero; after the answer both
      cliques have the marginal kept on the edge. */
  ghost predicate EdgeOk(card: seq<nat>, t: Tree, s: State, c: nat, p: nat, stage: nat)
    requires |s.nodes| == |t.vars| && c < |t.vars| && p < |t.vars|
  {
    var e, sep := Shared(t, c, p), Sep(s, c, p);
    && (stage == 0 ==> sep == map[])
    && (stage >= 1 ==> Over(sep, card, e) && Keeps(sep, s.nodes[c], e))
    && (stage == 1 ==> forall y :: y in s.nodes[p] && Entry(sep, Restrict(y, e)) == 0.0 ==> s.nodes[p][y] == 0.0)
    && (stage == 2 ==> Keeps(sep, s.nodes[p], e))
  }

  /** The edge keeps the marginals of a clique. */
  ghost predicate Keeps(sep: Table, node: Table, e: set<nat>) {
    forall a :: a in sep ==> sep[a] == Marginal(node, e, a)
  }

  ghost predicate Calibrated(card: seq<nat>, t: Tree, o: Orientation, st: Stages, s: State)
    requires Oriented(t, o) && |st| == |t.nbrs|
  {
    && WellFormed(card, t, s)
    && forall c: nat, p: nat :: o.Child(c, p) ==> EdgeOk(card, t, s, c, p, st[c])
  }

  lemma MarginalsKeep(t: Table, card: seq<nat>, e: set<nat>)
    requires forall k :: k in e ==> k < |card|
    ensures Keeps(Marginals(t, card, e), t, e)
  {
    hide Marginal, Space;
  }

  /** Sending to another node does not change an edge. */
  lemma OtherSep(card: seq<nat>, t: Tree, s: State, i: nat, j: nat, c: nat, p: nat)
    requires WellFormed(card, t, s) && i < |t.vars| && j < |t.vars| && c < |t.vars| && p < |t.vars|
    ensures var s' := Send(card, t, s, i, j);
            && (!(c == i && p == j) && !(c == j && p == i) ==> Sep(s', c, p) == Sep(s, c, p))
            && ((forall k :: k in Shared(t, i, j) ==> k < |card|) ==>
                  Sep(s', i, j) == Sep(s', j, i) == Marginals(s.nodes[i], card, Shared(t, i, j)))
  {
    hide Marginals, Absorbed;
    if {c, p} == {i, j} {
      SamePair(c, p, i, j);
    }
    assert {i, j} == {j, i};
  }

  /** Node p gets a message from i and keeps its zeros. */
  lemma ZerosStay(card: seq<nat>, t: Tree, s: State, i: nat, p: nat)
    requires WellFormed(card, t, s) && i < |t.vars| && p < |t.vars| && i != p
    ensures var s' := Send(card, t, s, i, p);
            && s'.nodes[p].Keys == s.nodes[p].Keys
            && (forall y :: y in s.nodes[p] && s.nodes[p][y] == 0.0 ==> s'.nodes[p][y] == 0.0)
            && (forall y :: y in s.nodes[p] && Entry(Sep(s', i, p), Restrict(y, Shared(t, i, p))) == 0.0 ==> s'.nodes[p][y] == 0.0)
  {
    hide Marginals, Absorbed, Over;
    var e := Shared(t, i, p);
    SendWellFormed(card, t, s, i, p);
    Entries(Marginals(s.nodes[i], card, e), card, e);
    Entries(Sep(s, i, p), card, e);
    AbsorbedOver(s.nodes[p], card, t.vars[p], e, Marginals(s.nodes[i], card, e), Sep(s, i, p));
    SameKeys(s.nodes[p], Absorbed(s.nodes[p], e, Marginals(s.nodes[i], card, e), Sep(s, i, p)), card, t.vars[p]);
  }

  lemma SameKeys(t: Table, t': Table, card: seq<nat>, vars: set<nat>)
    requires Over(t, card, vars) && Over(t', card, vars)
    ensures t.Keys == t'.Keys
  {
  }

  lemma Unanswered(t: Tree, o: Orientation, st: Stages, c: nat, p: nat)
    requires Oriented(t, o) && InOrder(t, o, st) && o.Child(c, p) && !Informed(t, o, st, p)
    ensures st[c] < 2
  {
  }

  /** A first message, to the parent. */
  lemma FirstCalibrates(card: seq<nat>, t: Tree, o: Orientation, st: Stages, s: State, i: nat, p: nat)
    requires Oriented(t, o) && InOrder(t, o, st) && Calibrated(card, t, o, st, s)
    requires o.Child(i, p) && st[i] == 0
    ensures Calibrated(card, t, o, st[i := 1], Send(card, t, s, i, p))
  {
    Shape(t, o);
    assert o.Edge(i, p);
    OneWay(t, o, i, p);
    hide Oriented, Over, Keeps, Marginals, Absorbed;
    var s' := Send(card, t, s, i, p);
    SendWellFormed(card, t, s, i, p);
    ZerosStay(card, t, s, i, p);
    MarginalsKeep(s.nodes[i], card, Shared(t, i, p));
    forall c: nat, q: nat | o.Child(c, q)
      ensures EdgeOk(card, t, s', c, q, st[i := 1][c])
    {
      OtherSep(card, t, s, i, p, c, q);
      assert EdgeOk(card, t, s, c, q, st[c]);
      if c != i && q == p {
        Unanswered(t, o, st, c, p);
      }
    }
  }

  /** An answer, to a child. */
  lemma AnswerCalibrates(card: seq<nat>, t: Tree, o: Orientation, st: Stages, s: State, i: nat, to: nat)
    requires Oriented(t, o) && InOrder(t, o, st) && Calibrated(card, t, o, st, s)
    requires o.Child(to, i) && st[to] == 1 && Informed(t, o, st, i)
    ensures Calibrated(card, t, o, st[to := 2], Send(card, t, s, i, to))
  {
    Shape(t, o);
    assert o.Edge(to, i);
    OneWay(t, o, to, i);
    hide Oriented, Over, Keeps, Marginals, Absorbed;
    var s' := Send(card, t, s, i, to);
    SendWellFormed(card, t, s, i, to);
    ZerosStay(card, t, s, i, to);
    MarginalsKeep(s.nodes[i], card, Shared(t, i, to));
    Variables(card, t, s, i, to);
    assert EdgeOk(card, t, s, to, i, st[to]);
    AnswerAgrees(card, t, s, i, to);
    forall c: nat, q: nat | o.Child(c, q)
      ensures EdgeOk(card, t, s', c, q, st[to := 2][c])
    {
      OtherSep(card, t, s, i, to, c, q);
      assert EdgeOk(card, t, s, c, q, st[c]);
      if c != to && q == to {
        Unanswered(t, o, st, c, to);
      }
    }
  }

  /** After the answer the child has the marginal of its parent, too. */
  lemma AnswerAgrees(card: seq<nat>, t: Tree, s: State, i: nat, to: nat)
    requires WellFormed(card, t, s) && i < |t.vars| && to < |t.vars| && i != to
    requires EdgeOk(card, t, s, to, i, 1)
    ensures var s' := Send(card, t, s, i, to); Keeps(Sep(s', i, to), s'.nodes[to], Shared(t, i, to))
  {
    hide Times, Ratio, Absorbed, Space;
    Variables(card, t, s, i, to);
    var e, olds := Shared(t, i, to), Sep(s, i, to);
    var news := Marginals(s.nodes[i], card, e);
    SendWellFormed(card, t, s, i, to);
    OtherSep(card, t, s, i, to, i, to);
    forall a | a in news
      ensures news[a] == Marginal(Absorbed(s.nodes[to], e, news, olds), e, a)
    {
      MarginalAbsorbed(s.nodes[to], e, news, olds, a);
      assert a in olds && olds[a] == Marginal(s.nodes[to], e, a);
      if olds[a] == 0.0 {
        SumZero(Above(s.nodes[i], e, a), At(s.nodes[i]));
      }
      Cancel(news[a], olds, a);
    }
  }

  lemma Cancel(n: real, olds: Table, a: Assignment)
    requires a in olds && (olds[a] == 0.0 ==> n == 0.0)
    ensures Times(Ratio(n, olds, a), olds[a]) == n
  {
  }

  // ---- conservation ----

  /** The nodes, and the edges with the smaller end first. */
  ghost function Nodes(t: Tree): set<nat> {
    Below(|t.nbrs|)
  }

  ghost function Links(t: Tree): set<(nat, nat)> {
    set i: nat, j: nat | i in Nodes(t) && i < |t.nbrs| && j in t.nbrs[i] && i < j :: (i, j)
  }

  ghost function AllVars(t: Tree): set<nat> {
    set i: nat, k: nat | i in Below(|t.vars|) && i < |t.vars| && k in t.vars[i] :: k
  }

  /** A clique's entry for a global assignment. */
  function NodeValue(t: Tree, s: State, w: Assignment, i: nat): real {
    if i < |t.vars| && i < |s.nodes| then Entry(s.nodes[i], Restrict(w, t.vars[i])) else 1.0
  }

  /** An edge's entry for a global assignment, 1 if it has none. */
  function LinkValue(t: Tree, s: State, w: Assignment, i: nat, j: nat): real {
    if i < |t.vars| && j < |t.vars| && Sep(s, i, j) != map[] then Entry(Sep(s, i, j), Restrict(w, Shared(t, i, j))) else 1.0
  }

  ghost function NodeFactor(t: Tree, s: State, w: Assignment): nat -> real {
    (i: nat) => NodeValue(t, s, w, i)
  }

  ghost function LinkFactor(t: Tree, s: State, w: Assignment): ((nat, nat)) -> real {
    (l: (nat, nat)) => LinkValue(t, s, w, l.0, l.1)
  }

  ghost function NodeProduct(t: Tree, s: State, w: Assignment): real {
    Product(Nodes(t), NodeFactor(t, s, w))
  }

  ghost function LinkProduct(t: Tree, s: State, w: Assignment): real {
    Product(Links(t), LinkFactor(t, s, w))
  }

  /** The product of the cliques over the product of the edges is the distribution joint, which can
      be read off wherever it is not zero. */
  ghost predicate Balanced(t: Tree, s: State, w: Assignment, joint: real) {
    && NodeProduct(t, s, w) == Times(joint, LinkProduct(t, s, w))
    && (joint == 0.0 || LinkProduct(t, s, w) != 0.0)
  }

  function Link(i: nat, j: nat): (nat, nat) {
    if i < j then (i, j) else (j, i)
  }

  lemma BalanceStep(joint: real, n: real, r: real, ov: real, nv: real, q: real)
    requires n == Times(joint, Times(ov, r)) && (joint == 0.0 || Times(ov, r) != 0.0)
    requires q == (if ov != 0.0 then nv / ov else nv) && (nv == 0.0 ==> n == 0.0)
    ensures Times(q, n) == Times(joint, Times(nv, r)) && (joint == 0.0 || Times(nv, r) != 0.0)
  {
    if ov != 0.0 {
      assert nv == q * ov;
      Shuffle(q, joint, ov, r);
    }
  }

  lemma Shuffle(q: real, joint: real, ov: real, r: real)
    ensures q * (joint * (ov * r)) == joint * ((q * ov) * r)
  {
    assert q * (joint * (ov * r)) == (q * joint) * (ov * r);
    assert joint * ((q * ov) * r) == joint * (q * (ov * r)) == (joint * q) * (ov * r);
  }

  /** A message keeps the distribution. */
  lemma BalanceKept(card: seq<nat>, t: Tree, o: Orientation, s: State, i: nat, j: nat, w: Assignment, joint: real)
    requires Oriented(t, o) && WellFormed(card, t, s) && o.Edge(i, j)
    requires Legal(card, AllVars(t), w) && Balanced(t, s, w, joint)
    ensures Balanced(t, Send(card, t, s, i, j), w, joint)
  {
    hide Times, Ratio, Absorbed, Marginals, Over;
    OneWay(t, o, i, j);
    Shape(t, o);
    var s', e := Send(card, t, s, i, j), Shared(t, i, j);
    var a := Restrict(w, e);
    var nv := Marginal(s.nodes[i], e, a);
    var ov := LinkValue(t, s, w, Link(i, j).0, Link(i, j).1);
    var q := Ratio(nv, Sep(s, i, j), a);
    var r := Product(Links(t) - {Link(i, j)}, LinkFactor(t, s, w));
    InLinks(t, o, i, j);
    NodesAfter(card, t, s, i, j, w);
    LinksAfter(card, t, s, i, j, w);
    ProductPick(Links(t), LinkFactor(t, s, w), Link(i, j));
    ProductSame(Links(t) - {Link(i, j)}, LinkFactor(t, s, w), LinkFactor(t, s', w));
    ProductPick(Links(t), LinkFactor(t, s', w), Link(i, j));
    BalanceStep(joint, NodeProduct(t, s, w), r, ov, nv, q);
  }

  lemma InLinks(t: Tree, o: Orientation, i: nat, j: nat)
    requires Oriented(t, o) && o.Edge(i, j)
    ensures Link(i, j) in Links(t)
  {
    OneWay(t, o, i, j);
    var k, m := if i < j then i else j, if i < j then j else i;
    assert o.Edge(m, k);
    assert m in t.nbrs[k];
  }

  lemma WithinAll(t: Tree, i: nat)
    requires i < |t.vars|
    ensures t.vars[i] <= AllVars(t)
  {
    assert i in Below(|t.vars|);
  }

  /** What the message does to the product of the cliques. */
  lemma NodesAfter(card: seq<nat>, t: Tree, s: State, i: nat, j: nat, w: Assignment)
    requires WellFormed(card, t, s) && i < |t.vars| && j < |t.vars| == |t.nbrs| && i != j && Legal(card, AllVars(t), w)
    ensures var e := Shared(t, i, j); var a := Restrict(w, e);
            var nv := Marginal(s.nodes[i], e, a);
            && NodeProduct(t, Send(card, t, s, i, j), w) == Times(Ratio(nv, Sep(s, i, j), a), NodeProduct(t, s, w))
            && (nv == 0.0 ==> NodeProduct(t, s, w) == 0.0)
  {
    hide Times, Ratio, Marginal, Over, Absorbed, Marginals, NodeValue;
    var s', e := Send(card, t, s, i, j), Shared(t, i, j);
    var a := Restrict(w, e);
    var f, f' := NodeFactor(t, s, w), NodeFactor(t, s', w);
    var nv := Marginal(s.nodes[i], e, a);
    var q := Ratio(nv, Sep(s, i, j), a);
    FactorAfter(card, t, s, i, j, w);
    ScaleOne(Nodes(t), f, f', j, q);
    if nv == 0.0 {
      assert f(i) == 0.0;
      ProductZero(Nodes(t), f);
    }
  }

  /** One factor of a product is scaled. */
  lemma ScaleOne<T(!new)>(s: set<T>, f: T -> real, f': T -> real, x: T, q: real)
    requires x in s && f'(x) == Times(f(x), q) && forall y :: y in s && y != x ==> f'(y) == f(y)
    ensures Product(s, f') == Times(q, Product(s, f))
  {
    hide Times;
    ProductPick(s, f, x);
    ProductPick(s, f', x);
    ProductSame(s - {x}, f, f');
    TimesCommute(f(x), q);
    TimesSwap(q, f(x), Product(s - {x}, f));
  }

  lemma FactorAfter(card: seq<nat>, t: Tree, s: State, i: nat, j: nat, w: Assignment)
    requires WellFormed(card, t, s) && i < |t.vars| && j < |t.vars| && i != j && Legal(card, AllVars(t), w)
    ensures var e := Shared(t, i, j); var a := Restrict(w, e);
            var nv := Marginal(s.nodes[i], e, a);
            var s' := Send(card, t, s, i, j);
            && NodeValue(t, s', w, j) == Times(NodeValue(t, s, w, j), Ratio(nv, Sep(s, i, j), a))
            && (nv == 0.0 ==> NodeValue(t, s, w, i) == 0.0)
            && forall k: nat :: k != j ==> NodeValue(t, s', w, k) == NodeValue(t, s, w, k)
  {
    hide Times, Ratio, Marginal;
    Variables(card, t, s, i, j);
    var e, y := Shared(t, i, j), Restrict(w, t.vars[j]);
    var a := Restrict(w, e);
    WithinAll(t, i);
    WithinAll(t, j);
    RestrictLegal(card, AllVars(t), w, t.vars[i]);
    RestrictLegal(card, AllVars(t), w, t.vars[j]);
    RestrictLegal(card, AllVars(t), w, e);
    RestrictTwice(w, e, t.vars[i]);
    RestrictTwice(w, e, t.vars[j]);
    MarginalIsNonNegative(s.nodes[i], card, t.vars[i], e, a);
    var x := Restrict(w, t.vars[i]);
    assert x in s.nodes[i] && y in s.nodes[j] && a in Space(card, e);
    hide Restrict, Legal, Space;
    var news := Marginals(s.nodes[i], card, e);
    assert Entry(news, a) == Marginal(s.nodes[i], e, a);
    assert Absorbed(s.nodes[j], e, news, Sep(s, i, j))[y] == Times(s.nodes[j][y], Ratio(Entry(news, a), Sep(s, i, j), a));
    assert 0.0 <= s.nodes[i][x] <= Marginal(s.nodes[i], e, a);
  }

  /** What it does to the factors of the edges. */
  lemma LinksAfter(card: seq<nat>, t: Tree, s: State, i: nat, j: nat, w: Assignment)
    requires WellFormed(card, t, s) && i < |t.vars| && j < |t.vars| && i != j && Legal(card, AllVars(t), w)
    ensures var e := Shared(t, i, j); var a := Restrict(w, e);
            var nv, ov := Marginal(s.nodes[i], e, a), LinkValue(t, s, w, Link(i, j).0, Link(i, j).1);
            var s' := Send(card, t, s, i, j);
            && LinkValue(t, s', w, Link(i, j).0, Link(i, j).1) == nv
            && Ratio(nv, Sep(s, i, j), a) == (if ov != 0.0 then nv / ov else nv)
            && forall l :: l in Links(t) && l != Link(i, j) ==> LinkValue(t, s', w, l.0, l.1) == LinkValue(t, s, w, l.0, l.1)
  {
    hide Marginal, Marginals, Over, Absorbed, Legal, Restrict;
    var s', e := Send(card, t, s, i, j), Shared(t, i, j);
    var a := Restrict(w, e);
    OtherSep(card, t, s, i, j, i, j);
    LinkEnds(card, t, s, i, j, a, w);
    forall l | l in Links(t) && l != Link(i, j)
      ensures LinkValue(t, s', w, l.0, l.1) == LinkValue(t, s, w, l.0, l.1)
    {
      if l.0 < |t.vars| && l.1 < |t.vars| {
        OtherSep(card, t, s, i, j, l.0, l.1);
      }
    }
  }

  lemma LinkEnds(card: seq<nat>, t: Tree, s: State, i: nat, j: nat, a: Assignment, w: Assignment)
    requires WellFormed(card, t, s) && i < |t.vars| && j < |t.vars| && Legal(card, AllVars(t), w)
    requires a == Restrict(w, Shared(t, i, j))
    ensures forall k :: k in Shared(t, i, j) ==> k < |card|
    ensures a in Marginals(s.nodes[i], card, Shared(t, i, j))
    ensures Marginals(s.nodes[i], card, Shared(t, i, j))[a] == Marginal(s.nodes[i], Shared(t, i, j), a)
    ensures Sep(s, i, j) == map[] || a in Sep(s, i, j)
    ensures Shared(t, i, j) == Shared(t, j, i) && Sep(s, i, j) == Sep(s, j, i)
  {
    hide Marginal;
    Variables(card, t, s, i, j);
    WithinAll(t, i);
    RestrictLegal(card, AllVars(t), w, Shared(t, i, j));
  }
}
