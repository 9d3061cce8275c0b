/** Assignments of values to variables. */
module Assignments {

  /** The value of each variable that has one. */
  type Assignment = map<nat, nat>

  /** The part of an assignment that is about the variables in e. */
  function Restrict(a: Assignment, e: set<nat>): Assignment {
    map k | k in a && k in e :: a[k]
  }

  /** An assignment of legal values to just these variables. */
  ghost predicate Legal(card: seq<nat>, vars: set<nat>, a: Assignment) {
    a.Keys == vars && forall k :: k in vars ==> k < |card| && a[k] < card[k]
  }

  /** All of them. */
  ghost function Space(card: seq<nat>, vars: set<nat>): (s: set<Assignment>)
    requires forall k :: k in vars ==> k < |card|
    ensures forall a :: a in s <==> Legal(card, vars, a)
    decreases |vars|
  {
    if vars == {} then
      var s: set<Assignment> := {map[]};
      assert forall a :: Legal(card, vars, a) ==> a == map[];
      s
    else
      var v :| v in vars;
      var rest := Space(card, vars - {v});
      var s := set x, d | x in rest && d in Below(card[v]) :: Extended(x, v, d);
      SpaceStep(card, vars, v, rest, s);
      s
  }

  ghost function Below(n: nat): (s: set<nat>)
    ensures forall d: nat :: d in s <==> d < n
  {
    if n == 0 then {} else Below(n - 1) + {n - 1}
  }

  function Extended(x: Assignment, v: nat, d: nat): Assignment {
    x[v := d]
  }

  lemma SpaceStep(card: seq<nat>, vars: set<nat>, v: nat, rest: set<Assignment>, s: set<Assignment>)
    requires v in vars && forall k :: k in vars ==> k < |card|
    requires forall a :: a in rest <==> Legal(card, vars - {v}, a)
    requires s == set x, d | x in rest && d in Below(card[v]) :: Extended(x, v, d)
    ensures forall a :: a in s <==> Legal(card, vars, a)
  {
    forall a | a in s
      ensures Legal(card, vars, a)
    {
      var x, d :| x in rest && d in Below(card[v]) && a == Extended(x, v, d);
      assert a.Keys == vars;
    }
    forall a | Legal(card, vars, a)
      ensures a in s
    {
      var x := a - {v};
      assert Legal(card, vars - {v}, x);
      assert a == Extended(x, v, a[v]);
    }
  }

  lemma RestrictTwice(a: Assignment, d: set<nat>, e: set<nat>)
    requires d <= e
    ensures Restrict(Restrict(a, e), d) == Restrict(a, d)
  {
  }

  lemma RestrictLegal(card: seq<nat>, vars: set<nat>, a: Assignment, e: set<nat>)
    requires Legal(card, vars, a) && e <= vars
    ensures Legal(card, e, Restrict(a, e))
  {
    assert Restrict(a, e).Keys == e;
  }
}
