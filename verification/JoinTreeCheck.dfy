/** `is_join_tree`: walking along all paths of a tree with the set of variables that must not come
    back. */
module JoinTreeCheck {
  import opened Assignments
  import opened JoinTrees
  import opened JoinTreeCalibration
  import opened JoinTreePaths
  import opened JoinTreeSides

  /** What a walk has in place of the node it came from when it begins. */
  const NoParent: nat := 0xffff_ffff

  /** A path from node n that does not begin by going to the parent. */
  ghost predicate From(t: Tree, n: nat, parent: nat, q: seq<nat>) {
    Path(t, q) && q[0] == n && (|q| > 1 ==> q[1] != parent)
  }

  /** No clique on the path has a dead variable, nor one that an earlier clique had and the next one
      did not. */
  ghost predicate NoneBack(t: Tree, q: seq<nat>, deads: set<nat>)
    requires forall i :: 0 <= i < |q| ==> q[i] < |t.vars|
  {
    && (forall j :: 0 <= j < |q| ==> t.vars[q[j]] !! deads)
    && forall i, j :: 0 < i <= j < |q| ==> (t.vars[q[i - 1]] - t.vars[q[i]]) !! t.vars[q[j]]
  }

  /** That is so on all these paths. */
  ghost predicate Lasts(t: Tree, n: nat, parent: nat, deads: set<nat>) {
    forall q :: From(t, n, parent, q) ==> NoneBack(t, q, deads)
  }

  /** The nodes still ahead. */
  ghost function Ahead(t: Tree, o: Orientation, n: nat, parent: nat): set<nat>
    requires Oriented(t, o) && (parent == NoParent || o.Edge(n, parent))
  {
    if parent == NoParent then Nodes(t) else Side(t, o, n, parent)
  }

  /** Behind a neighbour that is not the parent there are fewer. */
  lemma AheadShrinks(t: Tree, o: Orientation, n: nat, parent: nat, c: nat)
    requires Oriented(t, o) && n < |t.nbrs| <= NoParent && (parent == NoParent || o.Edge(n, parent))
    requires c in t.nbrs[n] && c != parent
    ensures o.Edge(c, n) && c != NoParent && n != NoParent
    ensures n in Ahead(t, o, n, parent) && n !in Ahead(t, o, c, n) && Ahead(t, o, c, n) < Ahead(t, o, n, parent)
  {
    assert o.Edge(c, n);
    SidesSplit(t, o, c, n);
    if parent != NoParent {
      SideIsAround(t, o, n, parent);
      forall m | m in Side(t, o, c, n)
        ensures m in Side(t, o, n, parent)
      {
        SidesSplit(t, o, c, n);
        OneToward(t, o, n, m, c);
      }
    }
  }

  lemma {:induction false} StaysAhead(t: Tree, o: Orientation, n: nat, parent: nat, q: seq<nat>)
    requires Oriented(t, o) && n < |t.nbrs| <= NoParent && (parent == NoParent || o.Edge(n, parent))
    requires From(t, n, parent, q)
    ensures forall v :: v in q ==> v in Ahead(t, o, n, parent)
    decreases |q|
  {
    hide Ahead, Oriented;
    if |q| > 1 {
      AheadShrinks(t, o, n, parent, q[1]);
      StaysAhead(t, o, q[1], n, q[1..]);
      assert q == [q[0]] + q[1..];
    } else {
      AloneAhead(t, o, n, parent);
    }
  }

  lemma AloneAhead(t: Tree, o: Orientation, n: nat, parent: nat)
    requires Oriented(t, o) && n < |t.nbrs| <= NoParent && (parent == NoParent || o.Edge(n, parent))
    ensures n in Ahead(t, o, n, parent)
  {
    if parent != NoParent {
      SidesSplit(t, o, n, parent);
    }
  }

  lemma OneStep(t: Tree, o: Orientation, n: nat, parent: nat, c: nat, q: seq<nat>)
    requires Oriented(t, o) && n < |t.nbrs| <= NoParent && (parent == NoParent || o.Edge(n, parent))
    requires c in t.nbrs[n] && c != parent && From(t, c, n, q)
    ensures From(t, n, parent, [n] + q)
  {
    AheadShrinks(t, o, n, parent, c);
    StaysAhead(t, o, c, n, q);
    OneWay(t, o, c, n);
    hide Ahead, Path;
    PathLonger(t, q, n);
  }

  lemma BackFurther(t: Tree, n: nat, q: seq<nat>, deads: set<nat>)
    requires n < |t.vars| && |q| > 0 && forall i :: 0 <= i < |q| ==> q[i] < |t.vars|
    ensures NoneBack(t, [n] + q, deads) <==>
            t.vars[n] !! deads && NoneBack(t, q, deads + (t.vars[n] - t.vars[q[0]]))
  {
    var p := [n] + q;
    if NoneBack(t, p, deads) {
      forall j | 0 <= j < |q|
        ensures t.vars[q[j]] !! deads + (t.vars[n] - t.vars[q[0]])
      {
        assert p[j + 1] == q[j] && p[1] == q[0];
        assert (t.vars[p[1 - 1]] - t.vars[p[1]]) !! t.vars[p[j + 1]];
      }
      forall i, j | 0 < i <= j < |q|
        ensures (t.vars[q[i - 1]] - t.vars[q[i]]) !! t.vars[q[j]]
      {
        assert (t.vars[p[i + 1 - 1]] - t.vars[p[i + 1]]) !! t.vars[p[j + 1]];
      }
    }
  }

  lemma LastsOnce(t: Tree, o: Orientation, n: nat, parent: nat, deads: set<nat>, c: nat)
    requires Oriented(t, o) && n < |t.nbrs| <= NoParent && (parent == NoParent || o.Edge(n, parent))
    requires c in t.nbrs[n] && c != parent && Lasts(t, n, parent, deads)
    ensures c < |t.vars| && Lasts(t, c, n, deads + (t.vars[n] - t.vars[c]))
  {
    AheadShrinks(t, o, n, parent, c);
    forall q | From(t, c, n, q)
      ensures NoneBack(t, q, deads + (t.vars[n] - t.vars[c]))
    {
      OneStep(t, o, n, parent, c, q);
      BackFurther(t, n, q, deads);
    }
  }

  lemma PartOfPath(t: Tree, q: seq<nat>, i: nat, j: nat)
    requires Path(t, q) && i < j <= |q|
    ensures Path(t, q[i..j])
  {
  }

  /** What comes back on a path comes back behind its first step. */
  lemma BackBehind(t: Tree, n: nat, parent: nat, deads: set<nat>, q: seq<nat>)
    requires From(t, n, parent, q) && !NoneBack(t, q, deads) && n < |t.vars| && t.vars[n] !! deads
    ensures |q| > 1 && q[1] in t.nbrs[n] && q[1] != parent && q[1] < |t.vars|
    ensures !Lasts(t, q[1], n, deads + (t.vars[n] - t.vars[q[1]]))
  {
    assert |q| > 1;
    assert q == [n] + q[1..];
    BackFurther(t, n, q[1..], deads);
    hide NoneBack;
    PartOfPath(t, q, 1, |q|);
    assert q[1..|q|] == q[1..];
    assert From(t, q[1], n, q[1..]);
  }

  /** The paths from a node are the node alone, and one more step to each neighbour but the parent. */
  lemma LastsStep(t: Tree, o: Orientation, n: nat, parent: nat, deads: set<nat>)
    requires Oriented(t, o) && n < |t.nbrs| <= NoParent && (parent == NoParent || o.Edge(n, parent))
    ensures |t.vars| == |t.nbrs| && forall c :: c in t.nbrs[n] ==> c < |t.vars|
    ensures Lasts(t, n, parent, deads) <==>
            && t.vars[n] !! deads
            && forall c :: c in t.nbrs[n] && c != parent ==> Lasts(t, c, n, deads + (t.vars[n] - t.vars[c]))
  {
    Closed(t, o);
    hide Oriented, NoneBack, Lasts;
    if Lasts(t, n, parent, deads) {
      AloneLasts(t, n, parent, deads);
      forall c | c in t.nbrs[n] && c != parent
        ensures Lasts(t, c, n, deads + (t.vars[n] - t.vars[c]))
      {
        LastsOnce(t, o, n, parent, deads, c);
      }
    } else if t.vars[n] !! deads {
      var q := Fails(t, n, parent, deads);
      BackBehind(t, n, parent, deads, q);
    }
  }

  lemma AloneLasts(t: Tree, n: nat, parent: nat, deads: set<nat>)
    requires Lasts(t, n, parent, deads) && n < |t.vars| == |t.nbrs|
    ensures t.vars[n] !! deads
  {
    assert From(t, n, parent, [n]);
    assert t.vars[[n][0]] !! deads;
  }

  lemma Fails(t: Tree, n: nat, parent: nat, deads: set<nat>) returns (q: seq<nat>)
    requires !Lasts(t, n, parent, deads)
    ensures From(t, n, parent, q) && !NoneBack(t, q, deads)
  {
    q :| From(t, n, parent, q) && !NoneBack(t, q, deads);
  }

  /** On a path on which nothing comes back, what both ends have has never gone. */
  lemma {:induction false} BothEnds(t: Tree, q: seq<nat>, i: nat)
    requires Path(t, q) && NoneBack(t, q, {}) && i < |q|
    ensures t.vars[q[0]] * t.vars[q[|q| - 1]] <= t.vars[q[i]]
  {
    if i > 0 {
      BothEnds(t, q, i - 1);
    }
  }

  lemma SecondHas(t: Tree, q: seq<nat>)
    requires PathCondition(t) && Path(t, q) && |q| > 1
    ensures q[0] < |t.vars| && q[1] < |t.vars| && q[|q| - 1] < |t.vars|
    ensures t.vars[q[0]] * t.vars[q[|q| - 1]] <= t.vars[q[1]]
  {
  }

  lemma NotBackAt(t: Tree, q: seq<nat>, i: nat, j: nat)
    requires PathCondition(t) && Path(t, q) && i < j < |q|
    requires forall k :: 0 <= k < |q| ==> q[k] < |t.vars|
    ensures (t.vars[q[i]] - t.vars[q[i + 1]]) !! t.vars[q[j]]
  {
    hide *;
    var part := q[i..j + 1];
    PartOfPath(t, q, i, j + 1);
    SecondHas(t, part);
    assert part[0] == q[i] && part[1] == q[i + 1] && part[|part| - 1] == q[j];
  }

  lemma NoneBackOn(t: Tree, q: seq<nat>)
    requires PathCondition(t) && Path(t, q)
    ensures NoneBack(t, q, {})
  {
    assert forall k :: 0 <= k < |q| ==> q[k] < |t.vars|;
    hide Path, PathCondition;
    forall i, j | 0 < i <= j < |q|
      ensures (t.vars[q[i - 1]] - t.vars[q[i]]) !! t.vars[q[j]]
    {
      NotBackAt(t, q, i - 1, j);
    }
  }

  /** Nothing comes back on any path if and only if the condition on paths holds. */
  lemma AllLast(t: Tree)
    requires |t.vars| == |t.nbrs| <= NoParent
    ensures PathCondition(t) <==> forall n :: 0 <= n < |t.nbrs| ==> Lasts(t, n, NoParent, {})
  {
    if PathCondition(t) {
      hide PathCondition, NoneBack;
      forall q: seq<nat> | Path(t, q)
        ensures NoneBack(t, q, {})
      {
        NoneBackOn(t, q);
      }
    }
    if forall n :: 0 <= n < |t.nbrs| ==> Lasts(t, n, NoParent, {}) {
      forall q: seq<nat>, i: nat | Path(t, q) && i < |q|
        ensures t.vars[q[0]] * t.vars[q[|q| - 1]] <= t.vars[q[i]]
      {
        assert Lasts(t, q[0], NoParent, {}) && From(t, q[0], NoParent, q);
        hide PathCondition, NoneBack;
        BothEnds(t, q, i);
      }
    }
  }

  method NoneDead(data: set<nat>, deads: set<nat>) returns (ok: bool)
    ensures ok <==> data !! deads
  {
    var rest := data;
    while rest != {}
      invariant rest <= data && (data - rest) !! deads
    {
      var k :| k in rest;
      if k in deads {
        return false;
      }
      rest := rest - {k};
    }
    ok := true;
  }

  /** What the next clique does not have is dead; none of it is yet. */
  method Bury(data: set<nat>, next: set<nat>, deads: set<nat>) returns (left: set<nat>)
    requires data !! deads
    ensures left == deads + (data - next)
  {
    left := deads;
    var rest := data;
    while rest != {}
      invariant rest <= data && left == deads + (data - rest - next)
    {
      var k :| k in rest;
      if k !in next {
        assert k !in left;
        left := left + {k};
      }
      rest := rest - {k};
    }
  }

  /** The reverse; all of it is dead. */
  method Revive(data: set<nat>, next: set<nat>, deads: set<nat>) returns (left: set<nat>)
    requires data - next <= deads
    ensures left == deads - (data - next)
  {
    left := deads;
    var rest := data;
    while rest != {}
      invariant rest <= data && left == deads - (data - rest - next)
    {
      var k :| k in rest;
      if k !in next {
        assert k in left;
        left := left - {k};
      }
      rest := rest - {k};
    }
  }

  /** `validate_join_tree`: accepts exactly if no dead variable occurs on a path from n, and no variable
      comes back on one. Then the dead variables are what they were. */
  method Validate(t: Tree, n: nat, deads: set<nat>, parent: nat, ghost o: Orientation) returns (ok: bool, left: set<nat>)
    requires Oriented(t, o) && n < |t.nbrs| <= NoParent && (parent == NoParent || o.Edge(n, parent))
    ensures ok <==> Lasts(t, n, parent, deads)
    ensures ok ==> left == deads
    decreases Ahead(t, o, n, parent)
  {
    LastsStep(t, o, n, parent, deads);
    hide *;
    left := deads;
    ok := NoneDead(t.vars[n], left);
    if !ok {
      return;
    }
    var rest := t.nbrs[n];
    while rest != {}
      invariant rest <= t.nbrs[n] && left == deads
      invariant forall c :: c in t.nbrs[n] - rest && c != parent ==> Lasts(t, c, n, deads + (t.vars[n] - t.vars[c]))
    {
      var c :| c in rest;
      rest := rest - {c};
      if c != parent {
        AheadShrinks(t, o, n, parent, c);
        left := Bury(t.vars[n], t.vars[c], left);
        ok, left := Validate(t, c, left, n, o);
        if !ok {
          return;
        }
        left := Revive(t.vars[n], t.vars[c], left);
      }
    }
    ok := true;
  }

  /** The edges of node i have the variables that their ends share. */
  ghost predicate EdgesRight(t: Tree, edges: seq<map<nat, set<nat>>>, i: nat)
    requires i < |edges| == |t.vars| == |t.nbrs| && edges[i].Keys == t.nbrs[i]
  {
    forall j :: j in t.nbrs[i] ==> j < |t.vars| && edges[i][j] == t.vars[i] * t.vars[j]
  }

  method CheckEdges(t: Tree, edges: seq<map<nat, set<nat>>>, i: nat) returns (ok: bool)
    requires i < |edges| == |t.vars| == |t.nbrs| && edges[i].Keys == t.nbrs[i] && forall j :: j in t.nbrs[i] ==> j < |t.vars|
    ensures ok <==> EdgesRight(t, edges, i)
  {
    var rest := t.nbrs[i];
    while rest != {}
      invariant rest <= t.nbrs[i] && forall j :: j in t.nbrs[i] - rest ==> edges[i][j] == t.vars[i] * t.vars[j]
    {
      var j :| j in rest;
      if t.vars[i] * t.vars[j] != edges[i][j] {
        return false;
      }
      rest := rest - {j};
    }
    ok := true;
  }

  /** Tests that a set is the set of all numbers below count. */
  method CheckAll(all: set<nat>, count: nat) returns (ok: bool)
    ensures ok <==> all == Below(count)
  {
    CountBelow(count);
    ghost var below := Below(count);
    assert forall k: nat :: k in below <==> k < count;
    hide *;
    if |all| != count {
      return false;
    }
    var rest := all;
    while rest != {}
      invariant rest <= all && all - rest <= below
    {
      var k :| k in rest;
      if k >= count {
        assert k in all && k !in below;
        return false;
      }
      rest := rest - {k};
    }
    SameCount(all, below);
    ok := true;
  }

  /** `is_join_tree`, behind its tests that the graph is connected and has no cycle: accepts exactly if the
      condition on paths holds, each edge has the variables that its ends share, and the cliques have
      all of the variables and no others. */
  method IsJoinTree(t: Tree, edges: seq<map<nat, set<nat>>>, count: nat, ghost o: Orientation) returns (ok: bool)
    requires Oriented(t, o) && |edges| == |t.vars| == |t.nbrs| <= NoParent
    requires forall i :: 0 <= i < |edges| ==> edges[i].Keys == t.nbrs[i]
    ensures ok <==> && PathCondition(t) && AllVars(t) == Below(count)
                    && forall i: nat :: i < |edges| ==> EdgesRight(t, edges, i)
  {
    hide *;
    Closed(t, o);
    AllLast(t);
    VarsUpTo(t);
    var i := 0;
    while i < |t.nbrs|
      invariant 0 <= i <= |t.nbrs| && forall n :: 0 <= n < i ==> Lasts(t, n, NoParent, {})
    {
      var left;
      ok, left := Validate(t, i, {}, NoParent, o);
      if !ok {
        return;
      }
      i := i + 1;
    }
    var all := {};
    i := 0;
    while i < |t.nbrs|
      invariant 0 <= i <= |t.nbrs| && all == VarsOf(t, Below(i))
      invariant forall n: nat :: n < i ==> EdgesRight(t, edges, n)
    {
      all := all + t.vars[i];
      ok := CheckEdges(t, edges, i);
      if !ok {
        return;
      }
      i := i + 1;
    }
    ok := CheckAll(all, count);
  }

  lemma Closed(t: Tree, o: Orientation)
    requires Oriented(t, o)
    ensures |t.vars| == |t.nbrs| && forall i: nat, j :: i < |t.nbrs| && j in t.nbrs[i] ==> j < |t.vars|
  {
    forall i: nat, j | i < |t.nbrs| && j in t.nbrs[i]
      ensures j < |t.vars|
    {
      assert o.Edge(j, i);
    }
  }

  lemma VarsUpTo(t: Tree)
    requires |t.vars| == |t.nbrs|
    ensures VarsOf(t, Below(0)) == {} && VarsOf(t, Below(|t.vars|)) == AllVars(t)
    ensures forall i: nat :: i < |t.vars| ==> VarsOf(t, Below(i + 1)) == VarsOf(t, Below(i)) + t.vars[i]
  {
    VarsOfAll(t);
    forall i: nat | i < |t.vars|
      ensures VarsOf(t, Below(i + 1)) == VarsOf(t, Below(i)) + t.vars[i]
    {
      assert Below(i + 1) == Below(i) + {i};
      VarsOfSum(t, Below(i), {i});
    }
  }

  lemma {:induction false} CountBelow(count: nat)
    ensures |Below(count)| == count
  {
    if count > 0 {
      var before := Below(count - 1);
      assert Below(count) == before + {count - 1} && count - 1 !in before;
      CountBelow(count - 1);
      hide Below;
    }
  }

  lemma SameCount(s: set<nat>, all: set<nat>)
    requires s <= all && |s| == |all|
    ensures s == all
  {
    assert |all - s| == |all| - |s|;
  }
}
