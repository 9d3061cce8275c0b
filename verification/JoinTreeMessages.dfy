/** What one message does to the tables of a join tree, and what every run of messages keeps. */
module JoinTreeMessages {
  import opened FiniteSums
  import opened Assignments
  import opened JoinTrees

  /** A joint probability table. */
  type Table = map<Assignment, real>

  /** An entry, 0 if there is none. */
  function Entry(t: Table, a: Assignment): real {
    if a in t then t[a] else 0.0
  }

  ghost function At(t: Table): Assignment -> real {
    (a: Assignment) => Entry(t, a)
  }

  /** The entries of a table that agree with assignment a of the variables in e. */
  ghost function Above(t: Table, e: set<nat>, a: Assignment): set<Assignment> {
    set x | x in t && Restrict(x, e) == a
  }

  /** The marginal of a table over the variables in e. */
  ghost function Marginal(t: Table, e: set<nat>, a: Assignment): real {
    Sum(Above(t, e, a), At(t))
  }

  /** The marginal is the sum of several entries, and greater than 1. */
  ghost predicate Cuts(t: Table, e: set<nat>, a: Assignment) {
    |Above(t, e, a)| > 1 && Marginal(t, e, a) > 1.0
  }

  /** A table with an entry for each assignment to its variables, none of them negative. */
  ghost predicate Over(t: Table, card: seq<nat>, vars: set<nat>) {
    && (forall k :: k in vars ==> k < |card|)
    && t.Keys == Space(card, vars)
    && forall a :: a in t ==> t[a] >= 0.0
  }

  /** The table of marginals. */
  ghost function Marginals(t: Table, card: seq<nat>, e: set<nat>): Table
    requires forall k :: k in e ==> k < |card|
  {
    map a | a in Space(card, e) :: Marginal(t, e, a)
  }

  /** By how much a message changes the receiver's entries: a new marginal over the old one, if
      there is an old one and it is not 0. */
  function Ratio(n: real, olds: Table, a: Assignment): real {
    if a in olds && olds[a] != 0.0 then n / olds[a] else n
  }

  /** The receiver's table after the message. */
  ghost function Absorbed(t: Table, e: set<nat>, news: Table, olds: Table): Table {
    map y | y in t :: Times(t[y], Ratio(Entry(news, Restrict(y, e)), olds, Restrict(y, e)))
  }

  lemma MarginalIsNonNegative(t: Table, card: seq<nat>, vars: set<nat>, e: set<nat>, a: Assignment)
    requires Over(t, card, vars)
    ensures Marginal(t, e, a) >= 0.0
    ensures forall x :: x in t && Restrict(x, e) == a ==> t[x] <= Marginal(t, e, a)
  {
    hide Space;
    SumNonNegative(Above(t, e, a), At(t));
    forall x | x in t && Restrict(x, e) == a
      ensures t[x] <= Marginal(t, e, a)
    {
      TermBelowSum(Above(t, e, a), At(t), x);
    }
  }

  lemma MarginalsOver(t: Table, card: seq<nat>, vars: set<nat>, e: set<nat>)
    requires Over(t, card, vars) && e <= vars
    ensures Over(Marginals(t, card, e), card, e)
  {
    hide Space, Marginal;
    forall a | a in Space(card, e)
      ensures Marginal(t, e, a) >= 0.0
    {
      MarginalIsNonNegative(t, card, vars, e, a);
    }
  }

  /** The receiver's marginals change by the same ratio as its entries. */
  lemma MarginalAbsorbed(t: Table, e: set<nat>, news: Table, olds: Table, a: Assignment)
    ensures Marginal(Absorbed(t, e, news, olds), e, a) == Times(Ratio(Entry(news, a), olds, a), Marginal(t, e, a))
  {
    hide Times, Ratio;
    var t' := Absorbed(t, e, news, olds);
    var q := Ratio(Entry(news, a), olds, a);
    assert Above(t', e, a) == Above(t, e, a);
    forall x | x in Above(t, e, a)
      ensures Entry(t', x) == Times(q, Entry(t, x))
    {
      TimesCommute(t[x], q);
    }
    SumScale(Above(t, e, a), At(t), At(t'), q);
  }

  lemma TimesCommute(a: real, b: real)
    ensures Times(a, b) == Times(b, a)
  {
  }

  lemma RatioSign(n: real, olds: Table, a: Assignment)
    requires n >= 0.0 && (a in olds ==> olds[a] >= 0.0)
    ensures Ratio(n, olds, a) >= 0.0 && (n == 0.0 ==> Ratio(n, olds, a) == 0.0)
  {
  }

  lemma TimesSign(a: real, b: real)
    requires a >= 0.0 && b >= 0.0
    ensures Times(a, b) >= 0.0
  {
  }

  lemma AbsorbedOver(t: Table, card: seq<nat>, vars: set<nat>, e: set<nat>, news: Table, olds: Table)
    requires Over(t, card, vars) && (forall a :: a in news ==> news[a] >= 0.0) && forall a :: a in olds ==> olds[a] >= 0.0
    ensures Over(Absorbed(t, e, news, olds), card, vars)
    ensures forall y :: y in t && t[y] == 0.0 ==> Absorbed(t, e, news, olds)[y] == 0.0
    ensures forall y :: y in t && Entry(news, Restrict(y, e)) == 0.0 ==> Absorbed(t, e, news, olds)[y] == 0.0
  {
    hide Times, Ratio, Space;
    var t' := Absorbed(t, e, news, olds);
    assert t'.Keys == t.Keys;
    forall y | y in t
      ensures t'[y] >= 0.0 && (t[y] == 0.0 || Entry(news, Restrict(y, e)) == 0.0 ==> t'[y] == 0.0)
    {
      var a := Restrict(y, e);
      RatioSign(Entry(news, a), olds, a);
      TimesSign(t[y], Ratio(Entry(news, a), olds, a));
      TimesZero(t[y], Ratio(Entry(news, a), olds, a));
    }
  }

  // ---- the tables of a join tree ----

  /** The tables of the cliques, and those kept on the edges: an empty one as long as no message
      has passed. */
  datatype State = State(nodes: seq<Table>, seps: map<set<nat>, Table>)

  /** The variables that the cliques at both ends of an edge have. */
  function Shared(t: Tree, i: nat, j: nat): set<nat>
    requires i < |t.vars| && j < |t.vars|
  {
    t.vars[i] * t.vars[j]
  }

  function Sep(s: State, i: nat, j: nat): Table {
    if {i, j} in s.seps then s.seps[{i, j}] else map[]
  }

  ghost predicate WellFormed(card: seq<nat>, t: Tree, s: State) {
    && |s.nodes| == |t.vars|
    && (forall i :: 0 <= i < |t.vars| ==> Over(s.nodes[i], card, t.vars[i]))
    && forall i: nat, j: nat :: i < |t.vars| && j < |t.vars| ==>
         Sep(s, i, j) == map[] || Over(Sep(s, i, j), card, Shared(t, i, j))
  }

  lemma Variables(card: seq<nat>, t: Tree, s: State, i: nat, j: nat)
    requires WellFormed(card, t, s) && i < |t.vars| && j < |t.vars|
    ensures forall k :: k in Shared(t, i, j) ==> k < |card|
    ensures Shared(t, i, j) == Shared(t, j, i) && Sep(s, i, j) == Sep(s, j, i)
  {
    assert {i, j} == {j, i};
  }

  /** The message from node i to node j. */
  ghost function Send(card: seq<nat>, t: Tree, s: State, i: nat, j: nat): State
    requires WellFormed(card, t, s) && i < |t.vars| && j < |t.vars|
  {
    Variables(card, t, s, i, j);
    var e := Shared(t, i, j);
    var news := Marginals(s.nodes[i], card, e);
    State(s.nodes[j := Absorbed(s.nodes[j], e, news, Sep(s, i, j))], s.seps[{i, j} := news])
  }

  lemma SendWellFormed(card: seq<nat>, t: Tree, s: State, i: nat, j: nat)
    requires WellFormed(card, t, s) && i < |t.vars| && j < |t.vars| && i != j
    ensures WellFormed(card, t, Send(card, t, s, i, j))
    ensures var e := Shared(t, i, j);
            (forall k :: k in e ==> k < |card|) && Over(Marginals(s.nodes[i], card, e), card, e)
  {
    hide Over, Absorbed, Marginals;
    Variables(card, t, s, i, j);
    var e := Shared(t, i, j);
    var news := Marginals(s.nodes[i], card, e);
    MarginalsOver(s.nodes[i], card, t.vars[i], e);
    Entries(news, card, e);
    Entries(Sep(s, i, j), card, e);
    AbsorbedOver(s.nodes[j], card, t.vars[j], e, news, Sep(s, i, j));
    var s' := Send(card, t, s, i, j);
    forall k: nat, m: nat | k < |t.vars| && m < |t.vars|
      ensures Sep(s', k, m) == map[] || Over(Sep(s', k, m), card, Shared(t, k, m))
    {
      if {k, m} == {i, j} {
        SamePair(k, m, i, j);
        Variables(card, t, s, i, j);
      }
    }
  }

  lemma Entries(t: Table, card: seq<nat>, vars: set<nat>)
    requires t == map[] || Over(t, card, vars)
    ensures forall a :: a in t ==> t[a] >= 0.0
  {
  }

  lemma SamePair(k: nat, m: nat, i: nat, j: nat)
    requires {k, m} == {i, j}
    ensures (k == i && m == j) || (k == j && m == i)
  {
    assert k in {i, j} && m in {i, j} && i in {k, m} && j in {k, m};
  }
}
