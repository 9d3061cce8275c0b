/** What the tables are in the middle of a run: every clique has its first table, times what its
    neighbours have told it so far. This says what each message carries, and so when marginals
    grow beyond 1. */
module JoinTreeRuns {
  import opened FiniteSums
  import opened Assignments
  import opened JoinTrees
  import opened JoinTreeMessages
  import opened JoinTreeCalibration
  import opened JoinTreePaths
  import opened JoinTreeMarginals
  import opened JoinTreeSides
  import opened JoinTreeFactors
  import opened MessageLog

  /** The neighbours from which node i has had its message. */
  ghost function HeardFrom(t: Tree, o: Orientation, st: Stages, i: nat): set<nat>
    requires Oriented(t, o) && |st| == |t.nbrs| && i < |st|
  {
    t.nbrs[i] - ToReceive(t, o, st, i)
  }

  /** The tables of the cliques at any time, from the tables s0 at the beginning. */
  ghost predicate Factored(card: seq<nat>, t: Tree, o: Orientation, st: Stages, s0: State, s: State)
    requires Known(card, t) && Oriented(t, o) && |st| == |t.nbrs|
  {
    && WellFormed(card, t, s)
    && forall i, x :: 0 <= i < |s.nodes| && x in s.nodes[i] ==> s.nodes[i][x] == Combined(card, t, o, s0, i, HeardFrom(t, o, st, i), x)
  }

  /** The entries of the message from i to j: what the side of i has to say, and in an answer also
      what j had told before. */
  ghost function Carried(card: seq<nat>, t: Tree, o: Orientation, s0: State, i: nat, j: nat, a: Assignment): real
    requires Known(card, t) && Oriented(t, o) && o.Edge(i, j)
  {
    if o.Child(i, j) then Message(card, t, o, s0, i, j, a)
    else OneWay(t, o, i, j); Times(Message(card, t, o, s0, j, i, a), Message(card, t, o, s0, i, j, a))
  }

  /** Node i may send to j: it has heard from all others, and an answer is to a message. */
  ghost predicate Ready(t: Tree, o: Orientation, st: Stages, i: nat, j: nat)
    requires Oriented(t, o) && |st| == |t.nbrs| && o.Edge(i, j)
  {
    if o.Child(i, j) then st[i] == 0 && forall d: nat :: o.Child(d, i) ==> st[d] >= 1
    else o.Child(j, i) && st[j] == 1 && Informed(t, o, st, i)
  }

  lemma ReadyStage(t: Tree, o: Orientation, st: Stages, i: nat, j: nat)
    requires Oriented(t, o) && |st| == |t.nbrs| && o.Edge(i, j) && Ready(t, o, st, i, j)
    ensures i < |st| && j < |st| && if o.Child(i, j) then st[i] == 0 else st[j] == 1
  {
    OneWay(t, o, i, j);
  }

  lemma HeardBy(t: Tree, o: Orientation, st: Stages, i: nat, j: nat)
    requires Oriented(t, o) && InOrder(t, o, st) && o.Edge(i, j) && Ready(t, o, st, i, j)
    ensures i < |st| && j < |st| && o.Edge(j, i)
    ensures HeardFrom(t, o, st, i) == if o.Child(i, j) then t.nbrs[i] - {j} else t.nbrs[i]
    ensures !o.Child(i, j) ==> HeardFrom(t, o, st, j) == t.nbrs[j] - {i}
  {
    OneWay(t, o, i, j);
    forall d | d in t.nbrs[i]
      ensures o.Edge(d, i) && (Sent(o, st, d, i) <==> !(o.Child(i, j) && d == j))
    {
      assert o.Edge(d, i);
      OneWay(t, o, d, i);
    }
    if !o.Child(i, j) {
      forall d | d in t.nbrs[j]
        ensures o.Edge(d, j) && (Sent(o, st, d, j) <==> d != i)
      {
        assert o.Edge(d, j);
        OneWay(t, o, d, j);
      }
    }
  }

  lemma EntryIs(card: seq<nat>, t: Tree, o: Orientation, st: Stages, s0: State, s: State, i: nat, x: Assignment)
    requires Known(card, t) && Oriented(t, o) && |st| == |t.nbrs| && Factored(card, t, o, st, s0, s) && i < |t.vars|
    requires Legal(card, t.vars[i], x)
    ensures Over(s.nodes[i], card, t.vars[i]) && Entry(s.nodes[i], x) == Combined(card, t, o, s0, i, HeardFrom(t, o, st, i), x)
  {
    hide Combined, HeardFrom;
  }

  /** The marginals of a node that has heard from all neighbours but one. */
  lemma FirstMarginal(card: seq<nat>, t: Tree, o: Orientation, st: Stages, s0: State, s: State, i: nat, j: nat, a: Assignment)
    requires Known(card, t) && Oriented(t, o) && RunningIntersection(t, o) && |st| == |t.nbrs|
    requires Factored(card, t, o, st, s0, s) && o.Edge(i, j) && i < |t.vars| && j < |t.vars|
    requires HeardFrom(t, o, st, i) == t.nbrs[i] - {j}
    ensures Marginal(s.nodes[i], Shared(t, i, j), a) == Message(card, t, o, s0, i, j, a)
  {
    Shape(t, o);
    hide Oriented, RunningIntersection, Legal, Message, Combined, Restrict, HeardFrom, Space, Marginal;
    TableMarginal(card, t.vars[i], s.nodes[i], Shared(t, i, j), a);
    forall x | Legal(card, t.vars[i], x)
      ensures At(s.nodes[i])(x) == Combined(card, t, o, s0, i, t.nbrs[i] - {j}, x)
    {
      EntryIs(card, t, o, st, s0, s, i, x);
    }
    MessageIs(card, t, o, s0, i, j, a, At(s.nodes[i]));
  }

  /** The marginals of a node that has heard from all neighbours. */
  lemma LaterMarginal(card: seq<nat>, t: Tree, o: Orientation, st: Stages, s0: State, s: State, i: nat, j: nat, a: Assignment)
    requires Known(card, t) && Oriented(t, o) && RunningIntersection(t, o) && |st| == |t.nbrs|
    requires Factored(card, t, o, st, s0, s) && o.Edge(i, j) && o.Edge(j, i) && i < |t.vars| && j < |t.vars|
    requires HeardFrom(t, o, st, i) == t.nbrs[i] && j in t.nbrs[i]
    ensures Marginal(s.nodes[i], Shared(t, i, j), a) == Times(Message(card, t, o, s0, j, i, a), Message(card, t, o, s0, i, j, a))
  {
    Shape(t, o);
    hide Oriented, RunningIntersection, Legal, Message, Combined, Restrict, Times, HeardFrom, Space, Marginal;
    var e, m, others := Shared(t, i, j), Message(card, t, o, s0, j, i, a), t.nbrs[i] - {j};
    var rest := (x: Assignment) => Combined(card, t, o, s0, i, others, x);
    MessageIs(card, t, o, s0, i, j, a, rest);
    PutBack(t.nbrs[i], j);
    SameShared(t, i, j);
    forall x | x in Worlds(card, t.vars[i], e, a)
      ensures At(s.nodes[i])(x) == Times(m, rest(x))
    {
      LaterEntry(card, t, o, st, s0, s, i, j, others, x);
    }
    TableMarginal(card, t.vars[i], s.nodes[i], e, a);
    SumScale(Worlds(card, t.vars[i], e, a), rest, At(s.nodes[i]), m);
  }

  lemma SameShared(t: Tree, i: nat, j: nat)
    requires i < |t.vars| && j < |t.vars|
    ensures Shared(t, i, j) == Shared(t, j, i)
  {
  }

  lemma PutBack(s: set<nat>, j: nat)
    requires j in s
    ensures s == s - {j} + {j}
  {
  }

  lemma LaterEntry(card: seq<nat>, t: Tree, o: Orientation, st: Stages, s0: State, s: State, i: nat, j: nat, others: set<nat>, x: Assignment)
    requires Known(card, t) && Oriented(t, o) && |st| == |t.nbrs| && Factored(card, t, o, st, s0, s)
    requires o.Edge(j, i) && i < |t.vars| && j < |t.vars| && Legal(card, t.vars[i], x)
    requires HeardFrom(t, o, st, i) == others + {j} && j !in others
    ensures Over(s.nodes[i], card, t.vars[i])
    ensures Entry(s.nodes[i], x) == Times(Message(card, t, o, s0, j, i, Restrict(x, Shared(t, j, i))), Combined(card, t, o, s0, i, others, x))
  {
    hide Message, Combined, Times, HeardFrom;
    EntryIs(card, t, o, st, s0, s, i, x);
    CombinedMore(card, t, o, s0, i, others, j, x);
    TimesCommute(Combined(card, t, o, s0, i, others, x), Message(card, t, o, s0, j, i, Restrict(x, Shared(t, j, i))));
  }

  /** The marginals of the sender are what its message carries. */
  lemma MessageCarries(card: seq<nat>, t: Tree, o: Orientation, st: Stages, s0: State, s: State, i: nat, j: nat, a: Assignment)
    requires Known(card, t) && Oriented(t, o) && RunningIntersection(t, o) && InOrder(t, o, st)
    requires Factored(card, t, o, st, s0, s) && o.Edge(i, j) && Ready(t, o, st, i, j) && i < |t.vars| && j < |t.vars|
    ensures Marginal(s.nodes[i], Shared(t, i, j), a) == Carried(card, t, o, s0, i, j, a)
  {
    HeardBy(t, o, st, i, j);
    IsNeighbour(t, o, i, j);
    hide Oriented, RunningIntersection, Times, Message, Factored, HeardFrom;
    if o.Child(i, j) {
      FirstMarginal(card, t, o, st, s0, s, i, j, a);
    } else {
      LaterMarginal(card, t, o, st, s0, s, i, j, a);
    }
  }

  lemma IsNeighbour(t: Tree, o: Orientation, i: nat, j: nat)
    requires Oriented(t, o) && o.Edge(i, j)
    ensures i < |t.nbrs| && j < |t.nbrs| && i != j && j in t.nbrs[i] && i in t.nbrs[j]
  {
    OneWay(t, o, i, j);
    assert o.Edge(j, i);
  }

  /** What the edge keeps when an answer is passed along it: what the receiver had told before. */
  lemma OldEntry(card: seq<nat>, t: Tree, o: Orientation, st: Stages, s0: State, s: State, i: nat, j: nat, y: Assignment)
    requires Known(card, t) && Oriented(t, o) && RunningIntersection(t, o) && InOrder(t, o, st) && Calibrated(card, t, o, st, s)
    requires Factored(card, t, o, st, s0, s) && o.Edge(i, j) && Ready(t, o, st, i, j) && !o.Child(i, j)
    requires i < |t.vars| && j < |t.vars| && o.Edge(j, i) && y in s.nodes[j]
    ensures var a, olds := Restrict(y, Shared(t, i, j)), Sep(s, i, j);
            a in olds && olds[a] == Message(card, t, o, s0, j, i, a) && (olds[a] == 0.0 ==> s.nodes[j][y] == 0.0)
  {
    var e := Shared(t, i, j);
    var a := Restrict(y, e);
    Shape(t, o);
    HeardBy(t, o, st, i, j);
    SameShared(t, i, j);
    Variables(card, t, s, i, j);
    RestrictLegal(card, t.vars[j], y, e);
    hide Oriented, RunningIntersection, Message, Factored, HeardFrom, InOrder, Space, Informed;
    assert EdgeOk(card, t, s, j, i, st[j]);
    FirstMarginal(card, t, o, st, s0, s, j, i, a);
    MarginalIsNonNegative(s.nodes[j], card, t.vars[j], e, a);
  }

  lemma NoOldEntry(card: seq<nat>, t: Tree, o: Orientation, st: Stages, s: State, i: nat, j: nat)
    requires Oriented(t, o) && |st| == |t.nbrs| && Calibrated(card, t, o, st, s) && o.Child(i, j) && st[i] == 0
    ensures Sep(s, i, j) == map[]
  {
    Shape(t, o);
    hide Oriented;
    assert EdgeOk(card, t, s, i, j, st[i]);
  }

  lemma SentEntry(card: seq<nat>, t: Tree, s: State, i: nat, j: nat, y: Assignment)
    requires WellFormed(card, t, s) && i < |t.vars| && j < |t.vars| && i != j && y in s.nodes[j]
    ensures var a := Restrict(y, Shared(t, i, j));
            && y in Send(card, t, s, i, j).nodes[j]
            && Send(card, t, s, i, j).nodes[j][y] == Times(s.nodes[j][y], Ratio(Marginal(s.nodes[i], Shared(t, i, j), a), Sep(s, i, j), a))
  {
    hide Times, Ratio, Marginal, Space;
    Variables(card, t, s, i, j);
    RestrictLegal(card, t.vars[j], y, Shared(t, i, j));
    assert Entry(Marginals(s.nodes[i], card, Shared(t, i, j)), Restrict(y, Shared(t, i, j))) ==
           Marginal(s.nodes[i], Shared(t, i, j), Restrict(y, Shared(t, i, j)));
  }

  /** The receiver's entries are multiplied by what the sender's side has to say, also where it has
      to be divided by what was said before. */
  lemma EntryAfter(card: seq<nat>, t: Tree, o: Orientation, st: Stages, s0: State, s: State, i: nat, j: nat, y: Assignment)
    requires Known(card, t) && Oriented(t, o) && RunningIntersection(t, o) && InOrder(t, o, st) && Calibrated(card, t, o, st, s)
    requires Factored(card, t, o, st, s0, s) && o.Edge(i, j) && Ready(t, o, st, i, j) && i < |t.vars| && j < |t.vars|
    requires y in s.nodes[j]
    ensures var a := Restrict(y, Shared(t, i, j));
            y in Send(card, t, s, i, j).nodes[j] &&
            Send(card, t, s, i, j).nodes[j][y] == Times(s.nodes[j][y], Message(card, t, o, s0, i, j, a))
  {
    var e := Shared(t, i, j);
    var a := Restrict(y, e);
    MessageCarries(card, t, o, st, s0, s, i, j, a);
    IsNeighbour(t, o, i, j);
    OneWay(t, o, i, j);
    SentEntry(card, t, s, i, j, y);
    var n, m := Marginal(s.nodes[i], e, a), Message(card, t, o, s0, i, j, a);
    if o.Child(i, j) {
      NoOldEntry(card, t, o, st, s, i, j);
      hide *;
      RatioCancels(s.nodes[j][y], n, m, Sep(s, i, j), a, 1.0);
    } else {
      OldEntry(card, t, o, st, s0, s, i, j, y);
      hide *;
      RatioCancels(s.nodes[j][y], n, m, Sep(s, i, j), a, Message(card, t, o, s0, j, i, a));
    }
  }

  lemma RatioCancels(v: real, n: real, m: real, olds: Table, a: Assignment, b: real)
    requires olds == map[] ==> n == m
    requires olds != map[] ==> n == Times(b, m) && a in olds && olds[a] == b && (b == 0.0 ==> v == 0.0)
    ensures Times(v, Ratio(n, olds, a)) == Times(v, m)
  {
  }

  lemma HeardAfter(t: Tree, o: Orientation, st: Stages, i: nat, j: nat, k: nat)
    requires Oriented(t, o) && |st| == |t.nbrs| && o.Edge(i, j) && Ready(t, o, st, i, j) && k < |st|
    ensures |Passed(o, st, i, j)| == |t.nbrs| && i < |t.nbrs| && j < |t.nbrs| && i !in HeardFrom(t, o, st, j)
    ensures HeardFrom(t, o, Passed(o, st, i, j), k) == HeardFrom(t, o, st, k) + if k == j then {i} else {}
  {
    IsNeighbour(t, o, i, j);
    OneWay(t, o, i, j);
    PassedSets(t, o, st, i, j, k);
    assert !Sent(o, st, i, j);
    hide Oriented, Ready, Sent;
  }

  /** A message keeps the tables as they are said to be. */
  lemma FactoredKept(card: seq<nat>, t: Tree, o: Orientation, st: Stages, s0: State, s: State, i: nat, j: nat)
    requires Known(card, t) && Oriented(t, o) && RunningIntersection(t, o) && InOrder(t, o, st) && Calibrated(card, t, o, st, s)
    requires Factored(card, t, o, st, s0, s) && o.Edge(i, j) && Ready(t, o, st, i, j)
    ensures |Passed(o, st, i, j)| == |t.nbrs| && i < |t.vars| && j < |t.vars|
    ensures Factored(card, t, o, Passed(o, st, i, j), s0, Send(card, t, s, i, j))
  {
    IsNeighbour(t, o, i, j);
    Shape(t, o);
    HeardAfter(t, o, st, i, j, j);
    SendWellFormed(card, t, s, i, j);
    hide Oriented, RunningIntersection, InOrder, Ready, HeardFrom, Combined, WellFormed, Message, Passed, Send, Calibrated, Known;
    var s' := Send(card, t, s, i, j);
    SentNodes(card, t, s, i, j);
    forall k: nat, x | k < |s'.nodes| && x in s'.nodes[k]
      ensures s'.nodes[k][x] == Combined(card, t, o, s0, k, HeardFrom(t, o, Passed(o, st, i, j), k), x)
    {
      HeardAfter(t, o, st, i, j, k);
      if k == j {
        EntryAfter(card, t, o, st, s0, s, i, j, x);
        CombinedMore(card, t, o, s0, j, HeardFrom(t, o, st, j), i, x);
      } else {
        NothingMore(HeardFrom(t, o, st, k));
      }
    }
  }

  lemma NothingMore(s: set<nat>)
    ensures s + {} == s
  {
  }

  lemma SentNodes(card: seq<nat>, t: Tree, s: State, i: nat, j: nat)
    requires WellFormed(card, t, s) && i < |t.vars| && j < |t.vars| && i != j
    ensures var s' := Send(card, t, s, i, j);
            && |s'.nodes| == |s.nodes| == |t.vars| && s'.nodes[j].Keys == s.nodes[j].Keys
            && forall k :: 0 <= k < |s.nodes| && k != j ==> s'.nodes[k] == s.nodes[k]
  {
    ZerosStay(card, t, s, i, j);
  }

  lemma FactoredFirst(card: seq<nat>, t: Tree, o: Orientation, st: Stages, s: State)
    requires Known(card, t) && Oriented(t, o) && WellFormed(card, t, s) && st == seq(|t.nbrs|, _ => 0)
    ensures Factored(card, t, o, st, s, s)
  {
    Shape(t, o);
    forall i: nat, x | i < |s.nodes| && x in s.nodes[i]
      ensures s.nodes[i][x] == Combined(card, t, o, s, i, HeardFrom(t, o, st, i), x)
    {
      assert HeardFrom(t, o, st, i) == {} by {
        NothingHeard(t, o, st, i);
      }
      RestrictSelf(card, t.vars[i], x);
    }
  }

  lemma NothingHeard(t: Tree, o: Orientation, st: Stages, i: nat)
    requires Oriented(t, o) && st == seq(|t.nbrs|, _ => 0) && i < |st|
    ensures HeardFrom(t, o, st, i) == {}
  {
    forall d | d in t.nbrs[i]
      ensures o.Edge(d, i) && !Sent(o, st, d, i)
    {
    }
  }

  // ---- marginals beyond 1 ----

  /** The message's entry for a is a sum of several terms. */
  ghost predicate Several(card: seq<nat>, t: Tree, i: nat, j: nat, a: Assignment)
    requires Known(card, t) && i < |t.vars| && j < |t.vars|
  {
    WithinAll(t, i);
    |Worlds(card, t.vars[i], Shared(t, i, j), a)| > 1
  }

  /** The message from i to j, which is passed in every run, has an entry that is a sum of several
      terms and greater than 1. */
  ghost predicate TooGreat(card: seq<nat>, t: Tree, o: Orientation, s0: State, i: nat, j: nat, a: Assignment)
    requires Known(card, t) && Oriented(t, o)
  {
    && o.Edge(i, j) && Legal(card, Shared(t, i, j), a) && Carried(card, t, o, s0, i, j, a) > 1.0
    && Several(card, t, i, j, a)
  }

  /** Sums have been cut off just if some message is too great; if not, the tables are what they are
      said to be, and no message passed so far was too great. */
  ghost predicate Explained(card: seq<nat>, t: Tree, o: Orientation, st: Stages, s0: State, s: State, clipped: bool)
    requires Known(card, t) && Oriented(t, o) && |st| == |t.nbrs|
  {
    if clipped then exists i, j, a :: TooGreat(card, t, o, s0, i, j, a)
    else
      && Factored(card, t, o, st, s0, s)
      && forall i: nat, j: nat, a :: o.Edge(i, j) && Sent(o, st, i, j) ==> !TooGreat(card, t, o, s0, i, j, a)
  }

  lemma CutsIfTooGreat(card: seq<nat>, t: Tree, o: Orientation, st: Stages, s0: State, s: State, i: nat, j: nat, a: Assignment)
    requires Known(card, t) && Oriented(t, o) && RunningIntersection(t, o) && InOrder(t, o, st)
    requires Factored(card, t, o, st, s0, s) && o.Edge(i, j) && Ready(t, o, st, i, j) && i < |t.vars| && j < |t.vars|
    ensures TooGreat(card, t, o, s0, i, j, a) <==> Legal(card, Shared(t, i, j), a) && Cuts(s.nodes[i], Shared(t, i, j), a)
  {
    MessageCarries(card, t, o, st, s0, s, i, j, a);
    Shape(t, o);
    hide Oriented, RunningIntersection, InOrder, Ready, Carried, Marginal, Worlds, Above, Combined;
    AboveIsWorlds(card, t.vars[i], s.nodes[i], Shared(t, i, j), a);
  }

  lemma ExplainedAfter(card: seq<nat>, t: Tree, o: Orientation, st: Stages, s0: State, s: State, i: nat, j: nat, s': State, clipped': bool)
    requires Known(card, t) && Oriented(t, o) && RunningIntersection(t, o) && InOrder(t, o, st) && Calibrated(card, t, o, st, s)
    requires Explained(card, t, o, st, s0, s, false) && o.Edge(i, j) && Ready(t, o, st, i, j) && i < |t.vars| && j < |t.vars|
    requires clipped' <==> exists a :: Legal(card, Shared(t, i, j), a) && Cuts(s.nodes[i], Shared(t, i, j), a)
    requires !clipped' ==> s' == Send(card, t, s, i, j)
    ensures |Passed(o, st, i, j)| == |t.nbrs| && Explained(card, t, o, Passed(o, st, i, j), s0, s', clipped')
  {
    FactoredKept(card, t, o, st, s0, s, i, j);
    ReadyStage(t, o, st, i, j);
    hide Oriented, RunningIntersection, InOrder, Ready, Legal, Calibrated, Marginal, Factored, Carried, Several, Cuts, Known;
    if clipped' {
      var a :| Legal(card, Shared(t, i, j), a) && Cuts(s.nodes[i], Shared(t, i, j), a);
      CutsIfTooGreat(card, t, o, st, s0, s, i, j, a);
    } else {
      forall k: nat, m: nat, a | o.Edge(k, m) && Sent(o, Passed(o, st, i, j), k, m)
        ensures !TooGreat(card, t, o, s0, k, m, a)
      {
        SentAfter(t, o, st, i, j, k, m);
        if k == i && m == j {
          CutsIfTooGreat(card, t, o, st, s0, s, i, j, a);
        }
      }
    }
  }
}
