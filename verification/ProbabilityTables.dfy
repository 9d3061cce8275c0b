/** Class joint_probability_table, as far as the join tree uses it. */
module ProbabilityTables {
  import opened FiniteSums
  import opened Assignments
  import opened AssignmentOrder
  import opened JoinTreeMessages

  /** What adding up the entries over s gives: a sum of two or more is cut off at 1. */
  ghost function Accumulated(s: set<Assignment>, f: Assignment -> real): real {
    if |s| <= 1 || Sum(s, f) <= 1.0 then Sum(s, f) else 1.0
  }

  lemma AccumulateFirst(f: Assignment -> real, x: Assignment)
    ensures Accumulated({x}, f) == f(x)
  {
    SumOne(x, f);
  }

  lemma AccumulateMore(s: set<Assignment>, f: Assignment -> real, x: Assignment)
    requires s != {} && x !in s && f(x) >= 0.0
    ensures Accumulated(s + {x}, f) ==
            if Accumulated(s, f) + f(x) > 1.0 then 1.0 else Accumulated(s, f) + f(x)
  {
    SumAdd(s, f, x);
    assert |s + {x}| == |s| + 1;
  }

  /** The elements of s that agree with a on the variables in e. */
  ghost function Part(s: set<Assignment>, e: set<nat>, a: Assignment): set<Assignment> {
    set x | x in s && Restrict(x, e) == a
  }

  ghost function Image(s: set<Assignment>, e: set<nat>): set<Assignment> {
    set x | x in s :: Restrict(x, e)
  }

  /** Copies the entries for the variables in e. */
  method RestrictTo(asrc: Assignment, e: set<nat>) returns (a: Assignment)
    ensures a == Restrict(asrc, e)
  {
    PairsAre(asrc);
    var p := Pairs(asrc);
    a := map[];
    var i := 0;
    while i < |p|
      invariant 0 <= i <= |p|
      invariant forall k :: k in a <==> k in e && exists j :: 0 <= j < i && p[j].0 == k
      invariant forall k :: k in a ==> k in asrc && a[k] == asrc[k]
    {
      if p[i].0 in e {
        a := a[p[i].0 := p[i].1];
      }
      i := i + 1;
    }
    forall k | k in asrc && k in e
      ensures k in a
    {
      assert (k, asrc[k]) in p;
    }
  }

  /** An entry grows by p, but not beyond 1. */
  function Added(t: Table, a: Assignment, p: real): Table {
    t[a := if a !in t then p else if t[a] + p > 1.0 then 1.0 else t[a] + p]
  }

  /** The table t holds what the entries over s add up to. */
  ghost predicate Collected(t: Table, s: set<Assignment>, e: set<nat>, f: Assignment -> real) {
    t.Keys == Image(s, e) && forall a :: a in t ==> t[a] == Accumulated(Part(s, e, a), f)
  }

  lemma CollectMore(t: Table, s: set<Assignment>, e: set<nat>, x: Assignment, f: Assignment -> real)
    requires Collected(t, s, e, f) && x !in s && f(x) >= 0.0
    ensures Collected(Added(t, Restrict(x, e), f(x)), s + {x}, e, f)
  {
    hide Accumulated, Restrict, Image, Part;
    Grown(s, e, x, f);
  }

  class JointProbabilityTable {
    var table: Table

    constructor (t: Table)
      ensures table == t
    {
      table := t;
    }

    /** Adds to an entry, which does not grow beyond 1. */
    method AddProbability(a: Assignment, p: real)
      modifies this
      ensures table == Added(old(table), a, p)
    {
      if a in table {
        table := table[a := table[a] + p];
        if table[a] > 1.0 {
          table := table[a := 1.0];
        }
      } else {
        table := table[a := p];
      }
    }

    /** The marginals over the variables in vars, sums being cut off at 1. */
    method Marginalize(vars: set<nat>, out: JointProbabilityTable)
      requires out != this && forall a :: a in table ==> table[a] >= 0.0
      modifies out
      ensures out.table.Keys == Image(table.Keys, vars)
      ensures forall a :: a in out.table ==> out.table[a] == Accumulated(Above(table, vars, a), At(table))
    {
      hide Accumulated, Restrict, Collected, Enumerates, Added;
      out.table := map[];
      var keys := Enumerate(table.Keys);
      ghost var t, f, done: set<Assignment> := table, At(table), {};
      NothingCollected(vars, f);
      var i := 0;
      while i < |keys|
        invariant 0 <= i <= |keys| && table == t
        invariant forall x :: x in done <==> x in keys[..i]
        invariant Collected(out.table, done, vars, f)
      {
        var x := keys[i];
        Fresh(keys, i, t.Keys);
        var a := RestrictTo(x, vars);
        assert keys[..i + 1] == keys[..i] + [x];
        CollectMore(out.table, done, vars, x, f);
        out.AddProbability(a, table[x]);
        done := done + {x};
        i := i + 1;
      }
      AllCollected(out.table, t, keys, done, vars);
    }

    /** Divides all entries by their sum; there is no result if that is 0. */
    method Normalize() returns (ok: bool)
      modifies this
      ensures ok <==> Total(old(table)) != 0.0
      ensures ok ==> table.Keys == old(table).Keys && Total(table) == 1.0
      ensures ok ==> forall a :: a in table ==> Times(table[a], Total(old(table))) == old(table)[a]
    {
      hide Enumerates, Times;
      ghost var t, f, done: set<Assignment> := table, At(table), {};
      var keys := Enumerate(table.Keys);
      var sum, i := 0.0, 0;
      while i < |keys|
        modifies {}
        invariant 0 <= i <= |keys|
        invariant forall x :: x in done <==> x in keys[..i]
        invariant sum == Sum(done, f)
      {
        Fresh(keys, i, t.Keys);
        assert keys[..i + 1] == keys[..i] + [keys[i]];
        SumAdd(done, f, keys[i]);
        sum := sum + table[keys[i]];
        done := done + {keys[i]};
        i := i + 1;
      }
      AllSeen(keys, t.Keys, done);
      if sum == 0.0 {
        return false;
      }
      i := 0;
      while i < |keys|
        invariant 0 <= i <= |keys| && table.Keys == t.Keys
        invariant forall j :: 0 <= j < |keys| ==> keys[j] in t && if j < i then Times(table[keys[j]], sum) == t[keys[j]] else table[keys[j]] == t[keys[j]]
      {
        Distinct(keys, t.Keys, i);
        ShareOf(table[keys[i]], sum);
        table := table[keys[i] := table[keys[i]] / sum];
        i := i + 1;
      }
      SharesAddUp(table, t);
      ok := true;
    }
  }

  lemma ShareOf(x: real, total: real)
    requires total != 0.0
    ensures Times(x / total, total) == x
  {
  }

  /** Shares of a total that is not 0 add up to 1. */
  lemma SharesAddUp(shares: Table, t: Table)
    requires shares.Keys == t.Keys && Total(t) != 0.0
    requires forall a :: a in t ==> Times(shares[a], Total(t)) == t[a]
    ensures Total(shares) == 1.0
  {
    forall a | a in t.Keys
      ensures At(t)(a) == Times(Total(t), At(shares)(a))
    {
    }
    SumScale(t.Keys, At(shares), At(t), Total(t));
    CancelTotal(Total(t), Total(shares));
  }

  lemma CancelTotal(x: real, y: real)
    requires x != 0.0 && x == Times(x, y)
    ensures y == 1.0
  {
  }

  /** The sum of all entries. */
  ghost function Total(t: Table): real {
    Sum(t.Keys, At(t))
  }

  lemma AllSeen(keys: seq<Assignment>, s: set<Assignment>, done: set<Assignment>)
    requires Enumerates(keys, s) && forall x :: x in done <==> x in keys[..|keys|]
    ensures done == s && forall a :: a in s ==> a in keys
    ensures forall i :: 0 <= i < |keys| ==> keys[i] in s
  {
    hide Less;
    assert keys[..|keys|] == keys;
  }

  lemma NothingCollected(e: set<nat>, f: Assignment -> real)
    ensures Collected(map[], {}, e, f)
  {
  }

  lemma AllCollected(r: Table, t: Table, keys: seq<Assignment>, done: set<Assignment>, e: set<nat>)
    requires Enumerates(keys, t.Keys) && (forall x :: x in done <==> x in keys[..|keys|])
    requires Collected(r, done, e, At(t))
    ensures r.Keys == Image(t.Keys, e)
    ensures forall a :: a in r ==> r[a] == Accumulated(Above(t, e, a), At(t))
  {
    hide Less, Accumulated, Restrict;
    assert keys[..|keys|] == keys;
    assert done == t.Keys;
    forall a | a in r
      ensures Part(done, e, a) == Above(t, e, a)
    {
    }
  }

  lemma Fresh(keys: seq<Assignment>, i: nat, s: set<Assignment>)
    requires Enumerates(keys, s) && i < |keys|
    ensures keys[i] !in keys[..i] && keys[i] in s
  {
    hide Less;
    forall j | 0 <= j < i
      ensures keys[j] != keys[i]
    {
      LessIsTotal(keys[j], keys[i]);
    }
  }

  lemma Distinct(keys: seq<Assignment>, s: set<Assignment>, i: nat)
    requires Enumerates(keys, s) && i < |keys|
    ensures forall j :: 0 <= j < |keys| && j != i ==> keys[j] != keys[i]
  {
    hide Less;
    forall j | 0 <= j < |keys| && j != i
      ensures keys[j] != keys[i]
    {
      LessIsTotal(keys[j], keys[i]);
    }
  }

  /** One more entry, x. */
  lemma Grown(done: set<Assignment>, e: set<nat>, x: Assignment, f: Assignment -> real)
    requires x !in done && f(x) >= 0.0
    ensures Image(done + {x}, e) == Image(done, e) + {Restrict(x, e)}
    ensures forall a :: a != Restrict(x, e) ==> Part(done + {x}, e, a) == Part(done, e, a)
    ensures var a := Restrict(x, e); var was := Accumulated(Part(done, e, a), f);
            Accumulated(Part(done + {x}, e, a), f) ==
            if a !in Image(done, e) then f(x) else if was + f(x) > 1.0 then 1.0 else was + f(x)
  {
    hide Accumulated, Restrict;
    var a := Restrict(x, e);
    var p := Part(done, e, a);
    assert Part(done + {x}, e, a) == p + {x};
    if a in Image(done, e) {
      var y :| y in done && Restrict(y, e) == a;
      assert y in p;
      AccumulateMore(p, f, x);
    } else {
      assert p == {};
      assert p + {x} == {x};
      AccumulateFirst(f, x);
    }
  }
}
