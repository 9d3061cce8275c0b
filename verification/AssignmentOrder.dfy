/** The order in which tables of assignments are gone through: operator< of class assignment. */
module AssignmentOrder {
  import opened Assignments

  predicate IsLeast(k: nat, s: set<nat>) {
    k in s && forall j :: j in s ==> k <= j
  }

  lemma {:induction false} LeastVariable(s: set<nat>)
    requires s != {}
    ensures exists k: nat :: IsLeast(k, s)
    decreases |s|
  {
    var i :| i in s;
    var rest := s - {i};
    var m: nat := i;
    if rest != {} {
      LeastVariable(rest);
      var k: nat :| IsLeast(k, rest);
      m := if i < k then i else k;
    }
    forall j | j in s
      ensures m <= j
    {
      assert j == i || j in rest;
    }
    assert IsLeast(m, s);
  }

  function Least(s: set<nat>): (k: nat)
    requires s != {}
    ensures IsLeast(k, s)
  {
    LeastVariable(s);
    var k: nat :| IsLeast(k, s);
    k
  }

  /** The variables of an assignment with their values, in ascending order of the variables. */
  function Pairs(a: Assignment): (p: seq<(nat, nat)>)
    ensures |p| == |a|
    decreases |a|
  {
    if a == map[] then []
    else
      var k := Least(a.Keys);
      assert (a - {k}).Keys == a.Keys - {k};
      [(k, a[k])] + Pairs(a - {k})
  }

  /** The first difference decides. */
  predicate PairsLess(p: seq<(nat, nat)>, q: seq<(nat, nat)>)
    requires |p| == |q|
  {
    if p == [] then false
    else if p[0].0 < q[0].0 then true
    else if p[0].0 > q[0].0 then false
    else if p[0].1 < q[0].1 then true
    else if p[0].1 > q[0].1 then false
    else PairsLess(p[1..], q[1..])
  }

  /** The first variable or value that differs decides. */
  lemma {:induction false} FirstDifference(p: seq<(nat, nat)>, q: seq<(nat, nat)>, i: nat)
    requires |p| == |q| && i < |p| && p[..i] == q[..i] && p[i] != q[i]
    ensures PairsLess(p, q) <==> p[i].0 < q[i].0 || (p[i].0 == q[i].0 && p[i].1 < q[i].1)
  {
    if i > 0 {
      assert p[..i][0] == p[0] && q[..i][0] == q[0];
      assert p[1..][..i - 1] == p[..i][1..] && q[1..][..i - 1] == q[..i][1..];
      FirstDifference(p[1..], q[1..], i - 1);
    }
  }

  /** The entries of an assignment, one by one. */
  lemma {:induction false} PairsAre(a: Assignment)
    ensures forall i :: 0 <= i < |Pairs(a)| ==> Pairs(a)[i].0 in a && a[Pairs(a)[i].0] == Pairs(a)[i].1
    ensures forall k :: k in a ==> (k, a[k]) in Pairs(a)
    decreases |a|
  {
    if a != map[] {
      var k := Least(a.Keys);
      var rest := a - {k};
      assert rest.Keys == a.Keys - {k};
      PairsAre(rest);
      var p, r := Pairs(a), Pairs(rest);
      assert p == [(k, a[k])] + r;
      hide Pairs;
      forall j | j in a
        ensures (j, a[j]) in p
      {
        if j != k {
          assert j in rest && (j, a[j]) in r;
        }
      }
      forall i | 0 <= i < |p|
        ensures p[i].0 in a && a[p[i].0] == p[i].1
      {
        if i > 0 {
          assert p[i] == r[i - 1] && r[i - 1].0 in rest;
        }
      }
    }
  }

  lemma LeastFirst(k: nat, v: nat, s: set<nat>, r: seq<(nat, nat)>)
    requires IsLeast(k, s) && (forall i :: 0 <= i < |r| ==> r[i].0 in s - {k}) && forall i, j :: 0 <= i < j < |r| ==> r[i].0 < r[j].0
    ensures var p := [(k, v)] + r; forall i, j :: 0 <= i < j < |p| ==> p[i].0 < p[j].0
  {
  }

  /** The variables come in ascending order. */
  lemma {:induction false} PairsAscend(a: Assignment)
    ensures forall i, j :: 0 <= i < j < |Pairs(a)| ==> Pairs(a)[i].0 < Pairs(a)[j].0
    decreases |a|
  {
    if a != map[] {
      var k := Least(a.Keys);
      var rest := a - {k};
      assert rest.Keys == a.Keys - {k};
      PairsAscend(rest);
      PairsAre(rest);
      var p, r := Pairs(a), Pairs(rest);
      assert p == [(k, a[k])] + r && IsLeast(k, a.Keys);
      hide Pairs, Least;
      LeastFirst(k, a[k], a.Keys, r);
    }
  }

  predicate Less(a: Assignment, b: Assignment) {
    |a| < |b| || (|a| == |b| && PairsLess(Pairs(a), Pairs(b)))
  }

  /** operator<: the two assignments are gone through side by side. */
  method LessThan(a: Assignment, b: Assignment) returns (r: bool)
    ensures r == Less(a, b)
  {
    if |a| < |b| {
      return true;
    } else if |a| > |b| {
      return false;
    }
    var p, q := Pairs(a), Pairs(b);
    var i := 0;
    assert p[0..] == p && q[0..] == q;
    while i < |p|
      invariant 0 <= i <= |p| && PairsLess(p, q) == PairsLess(p[i..], q[i..])
    {
      assert p[i..][1..] == p[i + 1..] && q[i..][1..] == q[i + 1..];
      if p[i].0 < q[i].0 {
        return true;
      } else if p[i].0 > q[i].0 {
        return false;
      } else if p[i].1 < q[i].1 {
        return true;
      } else if p[i].1 > q[i].1 {
        return false;
      }
      i := i + 1;
    }
    return false;
  }

  // ---- it is a strict total order ----

  lemma {:induction false} PairsTotal(p: seq<(nat, nat)>, q: seq<(nat, nat)>)
    requires |p| == |q|
    ensures p == q || PairsLess(p, q) || PairsLess(q, p)
    ensures !(PairsLess(p, q) && PairsLess(q, p)) && (p == q ==> !PairsLess(p, q))
  {
    if p != [] {
      PairsTotal(p[1..], q[1..]);
      if p[0] == q[0] && p[1..] == q[1..] {
        assert p == [p[0]] + p[1..] && q == [q[0]] + q[1..];
      }
    }
  }

  lemma {:induction false} PairsTransitive(p: seq<(nat, nat)>, q: seq<(nat, nat)>, r: seq<(nat, nat)>)
    requires |p| == |q| == |r| && PairsLess(p, q) && PairsLess(q, r)
    ensures PairsLess(p, r)
  {
    if p[0] == q[0] == r[0] {
      PairsTransitive(p[1..], q[1..], r[1..]);
    }
  }

  lemma {:induction false} PairsDetermine(a: Assignment, b: Assignment)
    requires Pairs(a) == Pairs(b)
    ensures a == b
    decreases |a|
  {
    if a != map[] {
      var k := Pairs(a)[0].0;
      assert |Pairs(b)| == |b| && b != map[];
      assert k in a && k in b && a[k] == b[k];
      assert Pairs(a)[1..] == Pairs(a - {k}) && Pairs(b)[1..] == Pairs(b - {k});
      assert (a - {k}).Keys == a.Keys - {k};
      PairsDetermine(a - {k}, b - {k});
      assert a == (a - {k})[k := a[k]] && b == (b - {k})[k := b[k]];
    } else {
      assert |b| == 0;
    }
  }

  lemma LessIsTotal(a: Assignment, b: Assignment)
    ensures a == b || Less(a, b) || Less(b, a)
    ensures !(Less(a, b) && Less(b, a)) && !Less(a, a)
  {
    if |a| == |b| {
      PairsTotal(Pairs(a), Pairs(b));
      if Pairs(a) == Pairs(b) {
        PairsDetermine(a, b);
      }
    }
    PairsTotal(Pairs(a), Pairs(a));
  }

  lemma LessIsTransitive(a: Assignment, b: Assignment, c: Assignment)
    requires Less(a, b) && Less(b, c)
    ensures Less(a, c)
  {
    if |a| == |b| == |c| {
      PairsTransitive(Pairs(a), Pairs(b), Pairs(c));
    }
  }

  // ---- so a set has only one enumeration ----

  /** The elements of s in ascending order. */
  ghost predicate Enumerates(keys: seq<Assignment>, s: set<Assignment>) {
    && (forall i, j :: 0 <= i < j < |keys| ==> Less(keys[i], keys[j]))
    && (forall i :: 0 <= i < |keys| ==> keys[i] in s)
    && forall a :: a in s ==> a in keys
  }

  /** Two tables with the same entries are gone through in step. */
  lemma {:induction false} OneEnumeration(p: seq<Assignment>, q: seq<Assignment>, s: set<Assignment>)
    requires Enumerates(p, s) && Enumerates(q, s)
    ensures p == q
    decreases |p|
  {
    hide Less;
    if p != [] {
      BothHaveElements(p, q, s);
      FirstIsLeast(p, q, s);
      assert p == [p[0]] + p[1..] && q == [q[0]] + q[1..];
      RestEnumerates(p, s);
      RestEnumerates(q, s);
      OneEnumeration(p[1..], q[1..], s - {p[0]});
    } else if q != [] {
      BothHaveElements(q, p, s);
    }
  }

  lemma BothHaveElements(p: seq<Assignment>, q: seq<Assignment>, s: set<Assignment>)
    requires Enumerates(p, s) && Enumerates(q, s) && p != []
    ensures q != []
  {
    hide Less;
    assert p[0] in q;
  }

  lemma FirstIsLeast(p: seq<Assignment>, q: seq<Assignment>, s: set<Assignment>)
    requires Enumerates(p, s) && Enumerates(q, s) && p != [] && q != []
    ensures p[0] == q[0]
  {
    hide Less;
    var i :| 0 <= i < |q| && q[i] == p[0];
    assert q[0] in s;
    var j :| 0 <= j < |p| && p[j] == q[0];
    if i > 0 && j > 0 {
      LessIsTotal(p[0], q[0]);
    }
  }

  lemma RestEnumerates(p: seq<Assignment>, s: set<Assignment>)
    requires Enumerates(p, s) && p != []
    ensures Enumerates(p[1..], s - {p[0]})
  {
    hide Less;
    forall i | 0 < i < |p|
      ensures p[i] != p[0]
    {
      LessIsTotal(p[0], p[0]);
    }
    forall a | a in s - {p[0]}
      ensures a in p[1..]
    {
      var i :| 0 <= i < |p| && p[i] == a;
      assert p[1..][i - 1] == a;
    }
  }

  /** The least element of a set. */
  lemma {:induction false} LeastAssignment(s: set<Assignment>)
    requires s != {}
    ensures exists a :: a in s && forall b :: b in s ==> b == a || Less(a, b)
    decreases |s|
  {
    hide Less;
    var x :| x in s;
    var rest := s - {x};
    if rest == {} {
      assert s == {x};
      assert forall b :: b in s ==> b == x;
    } else {
      LeastAssignment(rest);
      var y :| y in rest && forall b :: b in rest ==> b == y || Less(y, b);
      LessIsTotal(x, y);
      if Less(x, y) {
        forall b | b in s && b != x
          ensures Less(x, b)
        {
          if b != y {
            LessIsTransitive(x, y, b);
          }
        }
      } else {
        assert forall b :: b in s ==> b == y || Less(y, b);
      }
    }
  }

  /** Goes through a set in ascending order. */
  method Enumerate(s: set<Assignment>) returns (keys: seq<Assignment>)
    ensures Enumerates(keys, s)
  {
    hide Less;
    keys := [];
    var rest := s;
    while rest != {}
      invariant rest <= s
      invariant forall i, j :: 0 <= i < j < |keys| ==> Less(keys[i], keys[j])
      invariant forall i :: 0 <= i < |keys| ==> keys[i] in s - rest
      invariant forall a :: a in s - rest ==> a in keys
      invariant forall i, b :: 0 <= i < |keys| && b in rest ==> Less(keys[i], b)
      decreases rest
    {
      LeastAssignment(rest);
      var a :| a in rest && forall b :: b in rest ==> b == a || Less(a, b);
      keys := keys + [a];
      rest := rest - {a};
    }
  }
}
