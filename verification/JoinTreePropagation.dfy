/** Propagation in a join tree: pass_join_tree_message, and the loops of
    create_bayesian_network_join_tree that decide who sends when. */
module JoinTreePropagation {
  import opened FiniteSums
  import opened Assignments
  import opened AssignmentOrder
  import opened JoinTrees
  import opened JoinTreeMessages
  import opened JoinTreeCalibration
  import opened JoinTreeMarginals
  import opened JoinTreePaths
  import opened JoinTreeFactors
  import opened JoinTreeRuns
  import opened MessageLog
  import opened ProbabilityTables

  /** Every variable has a value. */
  ghost predicate Positive(card: seq<nat>) {
    forall k :: 0 <= k < |card| ==> card[k] > 0
  }

  lemma Extends(card: seq<nat>, k: set<nat>, e: set<nat>, a: Assignment) returns (x: Assignment)
    requires Positive(card) && e <= k && (forall i :: i in k ==> i < |card|) && Legal(card, e, a)
    ensures Legal(card, k, x) && Restrict(x, e) == a
  {
    x := map i | i in k :: if i in e then a[i] else 0;
    assert x.Keys == k;
  }

  lemma ImageIsSpace(card: seq<nat>, k: set<nat>, e: set<nat>)
    requires Positive(card) && e <= k && forall i :: i in k ==> i < |card|
    ensures Image(Space(card, k), e) == Space(card, e)
  {
    forall a | a in Image(Space(card, k), e)
      ensures a in Space(card, e)
    {
      var x :| x in Space(card, k) && Restrict(x, e) == a;
      RestrictLegal(card, k, x, e);
    }
    forall a | a in Space(card, e)
      ensures a in Image(Space(card, k), e)
    {
      var x := Extends(card, k, e, a);
      assert x in Space(card, k);
    }
  }

  /** Some marginal is cut off. */
  ghost predicate SomeCut(t: Table, card: seq<nat>, e: set<nat>) {
    exists a :: Legal(card, e, a) && Cuts(t, e, a)
  }

  /** The marginals of a table, cut off where that happens. */
  ghost function CutMarginals(t: Table, card: seq<nat>, e: set<nat>): Table
    requires forall k :: k in e ==> k < |card|
  {
    map a | a in Space(card, e) :: Accumulated(Above(t, e, a), At(t))
  }

  /** The message with the entries news from i to j. */
  ghost function Delivered(t: Tree, s: State, i: nat, j: nat, news: Table): State
    requires i < |t.vars| && j < |t.vars| && j < |s.nodes|
  {
    State(s.nodes[j := Absorbed(s.nodes[j], Shared(t, i, j), news, Sep(s, i, j))], s.seps[{i, j} := news])
  }

  /** What marginalizing gives. */
  lemma Marginalized(card: seq<nat>, t: Table, k: set<nat>, e: set<nat>, news: Table)
    requires Positive(card) && Over(t, card, k) && e <= k
    requires news.Keys == Image(t.Keys, e) && forall a :: a in news ==> news[a] == Accumulated(Above(t, e, a), At(t))
    ensures Over(news, card, e) && (forall i :: i in e ==> i < |card|) && news == CutMarginals(t, card, e)
  {
    ImageIsSpace(card, k, e);
    CutMarginalsAre(card, t, k, e, news);
    hide Space, Accumulated, Image, Above, Marginal, CutMarginals;
    forall a | a in news
      ensures news[a] >= 0.0
    {
      AccumulatedIs(card, t, k, e, a);
    }
  }

  lemma CutMarginalsAre(card: seq<nat>, t: Table, k: set<nat>, e: set<nat>, news: Table)
    requires Over(t, card, k) && e <= k && (forall i :: i in k ==> i < |card|) && news.Keys == Space(card, e)
    requires forall a :: a in news ==> news[a] == Accumulated(Above(t, e, a), At(t))
    ensures (forall i :: i in e ==> i < |card|) && news == CutMarginals(t, card, e)
  {
    hide Space, Accumulated, Above;
  }

  lemma AccumulatedIs(card: seq<nat>, t: Table, k: set<nat>, e: set<nat>, a: Assignment)
    requires Over(t, card, k)
    ensures Accumulated(Above(t, e, a), At(t)) >= 0.0
    ensures Accumulated(Above(t, e, a), At(t)) == Marginal(t, e, a) <==> !Cuts(t, e, a)
  {
    hide Above, Over;
    MarginalIsNonNegative(t, card, k, e, a);
  }

  /** If no sum has been cut off, it gives the marginals. */
  lemma MarginalizedUncut(card: seq<nat>, t: Table, k: set<nat>, e: set<nat>)
    requires Over(t, card, k) && e <= k && (forall i :: i in e ==> i < |card|) && !SomeCut(t, card, e)
    ensures CutMarginals(t, card, e) == Marginals(t, card, e)
  {
    hide Space, Accumulated, Above, Marginal, Cuts;
    forall a | Legal(card, e, a)
      ensures Accumulated(Above(t, e, a), At(t)) == Marginal(t, e, a)
    {
      AccumulatedIs(card, t, k, e, a);
    }
  }

  /** The new marginals divided by the old ones, if there are any: both tables are gone through in
      step. */
  method Divide(news: Table, olds: Table) returns (temp: Table)
    requires olds == map[] || olds.Keys == news.Keys
    ensures temp.Keys == news.Keys && forall a :: a in temp ==> temp[a] == Ratio(news[a], olds, a)
  {
    hide Less;
    temp := news;
    if |olds| > 0 {
      var keys := Enumerate(temp.Keys);
      var oldKeys := Enumerate(olds.Keys);
      OneEnumeration(keys, oldKeys, news.Keys);
      var i := 0;
      while i < |keys|
        invariant 0 <= i <= |keys| && temp.Keys == news.Keys
        invariant forall j :: 0 <= j < i ==> temp[keys[j]] == Ratio(news[keys[j]], olds, keys[j])
        invariant forall j :: i <= j < |keys| ==> temp[keys[j]] == news[keys[j]]
      {
        Fresh(keys, i, news.Keys);
        Distinct(keys, news.Keys, i);
        if olds[oldKeys[i]] != 0.0 {
          temp := temp[keys[i] := temp[keys[i]] / olds[oldKeys[i]]];
        }
        i := i + 1;
      }
      forall a | a in temp
        ensures temp[a] == Ratio(news[a], olds, a)
      {
        assert a in keys;
      }
    }
  }

  /** The receiver's entries, each multiplied by the quotient for its shared variables. */
  method Multiply(t: Table, e: set<nat>, temp: Table) returns (d: Table)
    requires forall y :: y in t ==> Restrict(y, e) in temp
    ensures d.Keys == t.Keys && forall y :: y in d ==> d[y] == Times(t[y], temp[Restrict(y, e)])
  {
    hide Less, Restrict, Times;
    d := t;
    var keys := Enumerate(t.Keys);
    var i := 0;
    while i < |keys|
      invariant 0 <= i <= |keys| && d.Keys == t.Keys
      invariant forall j :: 0 <= j < i ==> d[keys[j]] == Times(t[keys[j]], temp[Restrict(keys[j], e)])
      invariant forall j :: i <= j < |keys| ==> d[keys[j]] == t[keys[j]]
    {
      Fresh(keys, i, t.Keys);
      Distinct(keys, t.Keys, i);
      var a := RestrictTo(keys[i], e);
      d := d[keys[i] := Times(d[keys[i]], temp[a])];
      i := i + 1;
    }
    forall y | y in d
      ensures d[y] == Times(t[y], temp[Restrict(y, e)])
    {
      assert y in keys;
    }
  }

  /** What has been reached after some messages, from tables s0 on: unless a sum was cut off,
      neighbours agree as far as messages have been passed, and the distribution is the same. */
  ghost predicate Reached(card: seq<nat>, t: Tree, o: Orientation, st: Stages, s0: State, s: State)
    requires Oriented(t, o) && |st| == |t.nbrs|
  {
    Calibrated(card, t, o, st, s) && SameDistribution(card, t, s0, s)
  }

  ghost predicate SameDistribution(card: seq<nat>, t: Tree, s0: State, s: State) {
    forall w, joint :: Legal(card, AllVars(t), w) && Balanced(t, s0, w, joint) ==> Balanced(t, s, w, joint)
  }

  lemma SendKeepsDistribution(card: seq<nat>, t: Tree, o: Orientation, s0: State, s: State, i: nat, j: nat)
    requires Oriented(t, o) && WellFormed(card, t, s) && o.Edge(i, j) && SameDistribution(card, t, s0, s)
    ensures i < |t.vars| && j < |t.vars| && SameDistribution(card, t, s0, Send(card, t, s, i, j))
  {
    Shape(t, o);
    hide Oriented, Balanced, Legal, WellFormed;
    forall w, joint | Legal(card, AllVars(t), w) && Balanced(t, s0, w, joint)
      ensures Balanced(t, Send(card, t, s, i, j), w, joint)
    {
      BalanceKept(card, t, o, s, i, j, w, joint);
    }
  }

  /** The state of the schedule: the lists, and what they stand for. */
  ghost predicate Lists(t: Tree, o: Orientation, st: Stages, send: seq<set<nat>>, receive: seq<set<nat>>)
    requires Oriented(t, o) && |st| == |t.nbrs|
  {
    && |send| == |receive| == |st|
    && forall i :: 0 <= i < |st| ==> send[i] == ToSend(t, o, st, i) && receive[i] == ToReceive(t, o, st, i)
  }

  /** A message is passed: the lists are brought up to date. */
  lemma ListsAfter(t: Tree, o: Orientation, st: Stages, send: seq<set<nat>>, receive: seq<set<nat>>, i: nat, j: nat)
    requires Oriented(t, o) && |st| == |t.nbrs| && Lists(t, o, st, send, receive)
    requires i < |st| && j in t.nbrs[i] && j < |st| && o.Edge(i, j) && (if o.Child(i, j) then st[i] == 0 else st[j] == 1)
    ensures Lists(t, o, Passed(o, st, i, j), send[i := send[i] - {j}], receive[j := receive[j] - {i}])
  {
    Shape(t, o);
    hide Oriented;
    var st' := Passed(o, st, i, j);
    forall k | 0 <= k < |st|
      ensures send[i := send[i] - {j}][k] == ToSend(t, o, st', k)
      ensures receive[j := receive[j] - {i}][k] == ToReceive(t, o, st', k)
    {
      PassedSets(t, o, st, i, j, k);
    }
  }

  // ---- what every run keeps ----

  /** A run that started from the tables s0 and has passed the messages in log. */
  ghost predicate RunKeeps(card: seq<nat>, t: Tree, o: Orientation, st: Stages, s0: State, log: Log, s: State, clipped: bool)
    requires Oriented(t, o) && |st| == |t.nbrs|
  {
    && InOrder(t, o, st) && Records(t, o, st, log) && AllHeard(t, log)
    && (!clipped ==> Reached(card, t, o, st, s0, s))
    && Known(card, t) && (RunningIntersection(t, o) ==> Explained(card, t, o, st, s0, s, clipped))
  }

  lemma OrderKept(t: Tree, o: Orientation, st: Stages, i: nat, j: nat)
    requires Oriented(t, o) && InOrder(t, o, st) && i < |st| && o.Edge(i, j) && Ready(t, o, st, i, j)
    ensures InOrder(t, o, Passed(o, st, i, j)) && Left(Passed(o, st, i, j)) < Left(st)
  {
    IsNeighbour(t, o, i, j);
    Shape(t, o);
    LeftPassed(t, o, st, i, j);
    if o.Child(i, j) {
      FirstKeepsOrder(t, o, st, i);
    } else {
      LaterKeepsOrder(t, o, st, i, j);
    }
  }

  lemma LeftPassed(t: Tree, o: Orientation, st: Stages, i: nat, j: nat)
    requires Oriented(t, o) && |st| == |t.nbrs| && o.Edge(i, j) && Ready(t, o, st, i, j)
    ensures Left(Passed(o, st, i, j)) < Left(st)
  {
    ReadyStage(t, o, st, i, j);
    hide Oriented, Ready, Left;
    LeftShrinks(st, if o.Child(i, j) then i else j);
  }

  lemma LogKept(t: Tree, o: Orientation, st: Stages, log: Log, i: nat, j: nat)
    requires Oriented(t, o) && InOrder(t, o, st) && i < |st| && o.Edge(i, j) && Ready(t, o, st, i, j)
    requires Records(t, o, st, log) && AllHeard(t, log)
    ensures |Passed(o, st, i, j)| == |t.nbrs|
    ensures Records(t, o, Passed(o, st, i, j), log + [(i, j)]) && AllHeard(t, log + [(i, j)])
  {
    Shape(t, o);
    IsNeighbour(t, o, i, j);
    ReadyStage(t, o, st, i, j);
    HeardFromOthers(t, o, st, i, j);
    hide Oriented, InOrder, Ready, Records, AllHeard;
    OneMoreSent(t, o, st, log, i, j);
  }

  lemma ReachedKept(card: seq<nat>, t: Tree, o: Orientation, st: Stages, s0: State, s: State, i: nat, j: nat)
    requires Oriented(t, o) && InOrder(t, o, st) && i < |st| && o.Edge(i, j) && Ready(t, o, st, i, j)
    requires Reached(card, t, o, st, s0, s) && i < |t.vars| && j < |t.vars|
    ensures |Passed(o, st, i, j)| == |t.nbrs| && Reached(card, t, o, Passed(o, st, i, j), s0, Send(card, t, s, i, j))
  {
    Shape(t, o);
    OneWay(t, o, i, j);
    SendKeepsDistribution(card, t, o, s0, s, i, j);
    hide Oriented, InOrder, SameDistribution, Send;
    if o.Child(i, j) {
      FirstCalibrates(card, t, o, st, s, i, j);
    } else {
      AnswerCalibrates(card, t, o, st, s, i, j);
    }
  }

  lemma OneMoreMessage(card: seq<nat>, t: Tree, o: Orientation, st: Stages, s0: State, log: Log, s: State, clipped: bool,
                       i: nat, j: nat, s': State, clipped': bool)
    requires Oriented(t, o) && |st| == |t.nbrs| && i < |st| && o.Edge(i, j) && Ready(t, o, st, i, j)
    requires RunKeeps(card, t, o, st, s0, log, s, clipped) && WellFormed(card, t, s) && i < |t.vars| && j < |t.vars|
    requires if clipped then clipped'
             else clipped' <==> SomeCut(s.nodes[i], card, Shared(t, i, j))
    requires !clipped' ==> s' == Send(card, t, s, i, j)
    ensures |Passed(o, st, i, j)| == |t.nbrs| && RunKeeps(card, t, o, Passed(o, st, i, j), s0, log + [(i, j)], s', clipped')
    ensures Left(Passed(o, st, i, j)) < Left(st)
  {
    OrderKept(t, o, st, i, j);
    LogKept(t, o, st, log, i, j);
    hide Oriented, InOrder, Ready, Records, AllHeard, RunningIntersection, Cuts, Legal, WellFormed, Factored, Left, Passed, Send;
    if !clipped' {
      ReachedKept(card, t, o, st, s0, s, i, j);
    }
    if RunningIntersection(t, o) {
      if !clipped {
        ExplainedAfter(card, t, o, st, s0, s, i, j, s', clipped');
      }
    }
  }

  /** The nodes from i up to k may not send anything. */
  ghost predicate Quiet(t: Tree, o: Orientation, st: Stages, i: nat, k: nat)
    requires Oriented(t, o) && |st| == |t.nbrs| && k <= |st|
  {
    forall n :: i <= n < k ==> !Enabled(t, o, st, n)
  }

  lemma NoneYet(t: Tree, o: Orientation, st: Stages)
    requires Oriented(t, o) && |st| == |t.nbrs|
    ensures 1 <= |st| && Quiet(t, o, st, 1, 1)
  {
  }

  lemma OneMoreQuiet(t: Tree, o: Orientation, st: Stages, i: nat, k: nat)
    requires Oriented(t, o) && |st| == |t.nbrs| && k < |st| && Quiet(t, o, st, i, k) && !Enabled(t, o, st, k)
    ensures Quiet(t, o, st, i, k + 1)
  {
  }

  lemma RootQuiet(t: Tree, o: Orientation, st: Stages)
    requires Oriented(t, o) && |st| == |t.nbrs| && Quiet(t, o, st, 1, |st|) && 0 < |st| && !Enabled(t, o, st, 0)
    ensures Quiet(t, o, st, 0, |st|)
  {
  }

  /** Takes a node off a list of messages. */
  method TakeOff(lists: array<set<nat>>, i: nat, j: nat)
    requires i < lists.Length
    modifies lists
    ensures lists[..] == old(lists[..])[i := old(lists[..])[i] - {j}]
  {
    lists[i] := lists[i] - {j};
  }

  /** Puts a node on a list of messages. */
  method PutOn(lists: array<set<nat>>, i: nat, j: nat)
    requires i < lists.Length
    modifies lists
    ensures lists[..] == old(lists[..])[i := old(lists[..])[i] + {j}]
  {
    lists[i] := lists[i] + {j};
  }

  lemma BackAgain(lists: seq<set<nat>>, i: nat, j: nat)
    requires i < |lists| && j < |lists| && i != j && j in lists[i]
    ensures var off := lists[i := lists[i] - {j}]; var both := off[j := off[j] - {i}];
            both[i := both[i] + {j}] == lists[j := lists[j] - {i}]
  {
    assert lists[i] - {j} + {j} == lists[i];
  }

  class BayesianJoinTree {
    const card: seq<nat>
    const tree: Tree
    var nodes: seq<Table>
    var seps: map<set<nat>, Table>
    ghost var clipped: bool   // some marginal of several entries was greater than 1 and has been cut off

    ghost function Now(): State
      reads this
    {
      State(nodes, seps)
    }

    ghost predicate Valid()
      reads this
    {
      |tree.nbrs| == |tree.vars| && Positive(card) && WellFormed(card, tree, Now())
    }

    /** Tables for the cliques, and none for the edges. */
    constructor (card0: seq<nat>, tree0: Tree, nodes0: seq<Table>)
      requires |tree0.nbrs| == |tree0.vars| && Positive(card0) && WellFormed(card0, tree0, State(nodes0, map[]))
      ensures Valid() && card == card0 && tree == tree0 && Now() == State(nodes0, map[]) && !clipped
    {
      card, tree := card0, tree0;
      nodes, seps, clipped := nodes0, map[], false;
    }

    /** Passes the message from one node to a neighbour. */
    method PassMessage(from: nat, to: nat)
      requires Valid() && from < |tree.vars| && to < |tree.vars| && from != to
      modifies this`nodes, this`seps, this`clipped
      ensures Valid() && forall k :: k in Shared(tree, from, to) ==> k < |card|
      ensures var e := Shared(tree, from, to);
              && Now() == Delivered(tree, old(Now()), from, to, CutMarginals(old(nodes)[from], card, e))
              && clipped == (old(clipped) || SomeCut(old(nodes)[from], card, e))
      ensures !clipped ==> Now() == Send(card, tree, old(Now()), from, to)
    {
      hide Space, Restrict, Ratio, Times, Accumulated, Image, SomeCut, Marginals, CutMarginals;
      var e := Shared(tree, from, to);
      var oldS := if {from, to} in seps then seps[{from, to}] else map[];
      var d := new JointProbabilityTable(nodes[from]);
      var newS := new JointProbabilityTable(map[]);
      d.Marginalize(e, newS);
      ghost var s := Now();
      Variables(card, tree, s, from, to);
      Marginalized(card, nodes[from], tree.vars[from], e, newS.table);
      if !SomeCut(nodes[from], card, e) {
        MarginalizedUncut(card, nodes[from], tree.vars[from], e);
      }
      var temp := Divide(newS.table, oldS);
      SharedEntries(card, nodes[to], tree.vars[to], e, newS.table);
      var product := Multiply(nodes[to], e, temp);
      MultipliedIsAbsorbed(nodes[to], e, newS.table, oldS, temp, product);
      MessageWellFormed(card, tree, s, from, to, newS.table);
      clipped := clipped || SomeCut(nodes[from], card, e);
      nodes := nodes[to := product];
      seps := seps[{from, to} := newS.table];
    }

    /** What the propagation keeps. */
    ghost predicate Progress(o: Orientation, st: Stages, s0: State, log: Log)
      requires Oriented(tree, o) && |st| == |tree.nbrs|
      reads this
    {
      Valid() && RunKeeps(card, tree, o, st, s0, log, Now(), clipped)
    }

    lemma InProgress(o: Orientation, st: Stages, s0: State, log: Log)
      requires Oriented(tree, o) && |st| == |tree.nbrs| && Progress(o, st, s0, log)
      ensures Valid() && RunKeeps(card, tree, o, st, s0, log, Now(), clipped) && InOrder(tree, o, st)
    {
    }

    /** Node i passes its message to node j, the lists being up to date already. */
    method Pass(i: nat, j: nat, ghost o: Orientation, ghost st: Stages, ghost s0: State, ghost log: Log)
      requires Oriented(tree, o) && |st| == |tree.nbrs| && i < |st| && o.Edge(i, j) && Progress(o, st, s0, log)
      requires Ready(tree, o, st, i, j)
      modifies this`nodes, this`seps, this`clipped
      ensures |Passed(o, st, i, j)| == |tree.nbrs| && Progress(o, Passed(o, st, i, j), s0, log + [(i, j)])
      ensures Left(Passed(o, st, i, j)) < Left(st)
    {
      IsNeighbour(tree, o, i, j);
      Shape(tree, o);
      ghost var s, was := Now(), clipped;
      PassMessage(i, j);
      hide *;
      OneMoreMessage(card, tree, o, st, s0, log, s, was, i, j, Now(), clipped);
    }

    /** One step of the schedule, for a node other than the root: it sends its first message if it
        has heard from all neighbours but one, and one further message if it has heard from all. */
    method VisitNode(i: nat, send: array<set<nat>>, receive: array<set<nat>>,
                     ghost o: Orientation, ghost st: Stages, ghost s0: State, ghost log: Log)
      returns (sent: bool, ghost st': Stages, ghost log': Log)
      requires Oriented(tree, o) && |st| == |tree.nbrs| && i < |st| && i != o.order[0] && Progress(o, st, s0, log)
      requires send != receive && Lists(tree, o, st, send[..], receive[..])
      modifies this`nodes, this`seps, this`clipped, send, receive
      ensures |st'| == |tree.nbrs| && Progress(o, st', s0, log') && Lists(tree, o, st', send[..], receive[..])
      ensures if sent then Left(st') < Left(st) else st' == st && log' == log && !Enabled(tree, o, st, i)
    {
      Shape(tree, o);
      MaySend(tree, o, st, send[..], receive[..], i);
      hide *;
      sent, st', log' := false, st, log;
      if |send[i]| == |tree.nbrs[i]| && |receive[i]| == 1 {
        st', log' := SendFirst(i, send, receive, o, st, s0, log);
        sent := true;
      } else if |receive[i]| == 0 && |send[i]| > 0 {
        st', log' := SendAnswer(i, send, receive, o, st, s0, log);
        sent := true;
      }
    }

    /** A node that has heard from all neighbours but one, and sent nothing, sends to that one. */
    method SendFirst(i: nat, send: array<set<nat>>, receive: array<set<nat>>,
                     ghost o: Orientation, ghost st: Stages, ghost s0: State, ghost log: Log)
      returns (ghost st': Stages, ghost log': Log)
      requires Oriented(tree, o) && |st| == |tree.nbrs| && i < |st| && i != o.order[0] && Progress(o, st, s0, log)
      requires send != receive && Lists(tree, o, st, send[..], receive[..])
      requires i < receive.Length && i < send.Length && |send[i]| == |tree.nbrs[i]| && |receive[i]| == 1
      modifies this`nodes, this`seps, this`clipped, send, receive
      ensures |st'| == |tree.nbrs| && Progress(o, st', s0, log') && Lists(tree, o, st', send[..], receive[..])
      ensures Left(st') < Left(st)
    {
      Shape(tree, o);
      MaySend(tree, o, st, send[..], receive[..], i);
      InProgress(o, st, s0, log);
      hide *;
      ghost var before, after := send[..], receive[..];
      var to :| to in receive[i];
      FirstStep(tree, o, st, before, after, i, to);
      TakeOff(receive, i, to);
      st', log' := Passed(o, st, i, to), log + [(i, to)];
      Pass(i, to, o, st, s0, log);
      TakeOff(send, i, to);
      TakeOff(receive, to, i);
      PutOn(receive, i, to);
      BackAgain(after, i, to);
    }

    /** A node that has heard from all neighbours sends one more message. */
    method SendAnswer(i: nat, send: array<set<nat>>, receive: array<set<nat>>,
                      ghost o: Orientation, ghost st: Stages, ghost s0: State, ghost log: Log)
      returns (ghost st': Stages, ghost log': Log)
      requires Oriented(tree, o) && |st| == |tree.nbrs| && i < |st| && Progress(o, st, s0, log)
      requires send != receive && Lists(tree, o, st, send[..], receive[..])
      requires i < receive.Length && i < send.Length && receive[i] == {} && |send[i]| > 0
      modifies this`nodes, this`seps, this`clipped, send, receive
      ensures |st'| == |tree.nbrs| && Progress(o, st', s0, log') && Lists(tree, o, st', send[..], receive[..])
      ensures i < receive.Length && receive[i] == {} && Left(st') < Left(st)
    {
      Shape(tree, o);
      MaySend(tree, o, st, send[..], receive[..], i);
      InProgress(o, st, s0, log);
      hide *;
      ghost var before, after := send[..], receive[..];
      var to :| to in send[i];
      AnswerStep(tree, o, st, before, after, i, to);
      st', log' := Passed(o, st, i, to), log + [(i, to)];
      TakeOff(send, i, to);
      TakeOff(receive, to, i);
      assert receive[..][i] == {};
      Pass(i, to, o, st, s0, log);
    }

    /** The root answers all its neighbours when it has heard from all of them. */
    method VisitRoot(send: array<set<nat>>, receive: array<set<nat>>,
                     ghost o: Orientation, ghost st: Stages, ghost s0: State, ghost log: Log)
      returns (sent: bool, ghost st': Stages, ghost log': Log)
      requires Oriented(tree, o) && |st| == |tree.nbrs| && o.order[0] == 0 && Progress(o, st, s0, log)
      requires send != receive && Lists(tree, o, st, send[..], receive[..])
      modifies this`nodes, this`seps, this`clipped, send, receive
      ensures |st'| == |tree.nbrs| && Progress(o, st', s0, log') && Lists(tree, o, st', send[..], receive[..])
      ensures if sent then Left(st') < Left(st) else st' == st && log' == log && !Enabled(tree, o, st, 0)
    {
      Shape(tree, o);
      MaySend(tree, o, st, send[..], receive[..], 0);
      hide *;
      sent, st', log' := false, st, log;
      if |receive[0]| == 0 {
        while |send[0]| > 0
          invariant |st'| == |tree.nbrs| && Progress(o, st', s0, log') && Lists(tree, o, st', send[..], receive[..])
          invariant receive[0] == {}
          invariant if sent then Left(st') < Left(st)
                    else st' == st && log' == log && send[..] == old(send[..]) && receive[..] == old(receive[..])
          decreases Left(st')
        {
          st', log' := SendAnswer(0, send, receive, o, st', s0, log');
          sent := true;
        }
      }
    }

    /** The lists of messages still to be sent and received: all of them. */
    method StartLists(ghost o: Orientation) returns (send: array<set<nat>>, receive: array<set<nat>>)
      requires Oriented(tree, o)
      ensures fresh(send) && fresh(receive) && send != receive
      ensures Lists(tree, o, seq(|tree.nbrs|, _ => 0), send[..], receive[..])
    {
      var n := |tree.nbrs|;
      send := new set<nat>[n](_ => {});
      receive := new set<nat>[n](_ => {});
      var i := 0;
      while i < n
        modifies send, receive
        invariant 0 <= i <= n && forall k :: 0 <= k < i ==> send[k] == receive[k] == tree.nbrs[k]
      {
        send[i], receive[i] := tree.nbrs[i], tree.nbrs[i];
        i := i + 1;
      }
      AllToSend(tree, o);
    }

    /** Goes through all nodes but the root once, and lets each of them send what it may. */
    method VisitOthers(send: array<set<nat>>, receive: array<set<nat>>,
                       ghost o: Orientation, ghost st: Stages, ghost s0: State, ghost log: Log)
      returns (messageSent: bool, ghost st': Stages, ghost log': Log)
      requires Oriented(tree, o) && |st| == |tree.nbrs| && o.order[0] == 0 && Progress(o, st, s0, log)
      requires send != receive && Lists(tree, o, st, send[..], receive[..])
      modifies this`nodes, this`seps, this`clipped, send, receive
      ensures |st'| == |tree.nbrs| && Progress(o, st', s0, log') && Lists(tree, o, st', send[..], receive[..])
      ensures if messageSent then Left(st') < Left(st) else st' == st && log' == log && Quiet(tree, o, st, 1, |st|)
    {
      Shape(tree, o);
      NoneYet(tree, o, st);
      hide *;
      messageSent, st', log' := false, st, log;
      var i, sent := 1, false;
      while i < |tree.nbrs|
        invariant 1 <= i <= |tree.nbrs| && |st'| == |tree.nbrs| && Progress(o, st', s0, log') && Lists(tree, o, st', send[..], receive[..])
        invariant if messageSent then Left(st') < Left(st) else st' == st && log' == log && Quiet(tree, o, st, 1, i)
      {
        sent, st', log' := VisitNode(i, send, receive, o, st', s0, log');
        if !messageSent && !sent {
          OneMoreQuiet(tree, o, st, 1, i);
        }
        messageSent := messageSent || sent;
        i := i + 1;
      }
    }

    /** Goes through all nodes once, the root last. */
    method OnePass(send: array<set<nat>>, receive: array<set<nat>>,
                   ghost o: Orientation, ghost st: Stages, ghost s0: State, ghost log: Log)
      returns (messageSent: bool, ghost st': Stages, ghost log': Log)
      requires Oriented(tree, o) && |st| == |tree.nbrs| && o.order[0] == 0 && Progress(o, st, s0, log)
      requires send != receive && Lists(tree, o, st, send[..], receive[..])
      modifies this`nodes, this`seps, this`clipped, send, receive
      ensures |st'| == |tree.nbrs| && Progress(o, st', s0, log') && Lists(tree, o, st', send[..], receive[..])
      ensures if messageSent then Left(st') < Left(st) else st' == st && log' == log && Quiet(tree, o, st, 0, |st|)
    {
      Shape(tree, o);
      messageSent, st', log' := VisitOthers(send, receive, o, st, s0, log);
      hide *;
      var sent;
      sent, st', log' := VisitRoot(send, receive, o, st', s0, log');
      if !messageSent && !sent {
        RootQuiet(tree, o, st);
      }
      messageSent := messageSent || sent;
    }

    /** Passes messages until no node can send any more. Every node has then sent one message to
        each neighbour, each time after it had heard from all others; and unless a sum was cut off,
        neighbours agree, and the tables stand for the same distribution as before. */
    method Propagate(ghost o: Orientation) returns (ghost log: Log, send: array<set<nat>>, receive: array<set<nat>>)
      requires Valid() && Oriented(tree, o) && o.order[0] == 0 && !clipped
      requires forall i: nat, j: nat :: i < |tree.vars| && j < |tree.vars| ==> Sep(Now(), i, j) == map[]
      modifies this`nodes, this`seps, this`clipped
      ensures Valid() && AllHeard(tree, log)
      ensures forall i: nat, j: nat :: multiset(log)[(i, j)] == if i < |tree.nbrs| && j in tree.nbrs[i] then 1 else 0
      ensures send.Length == receive.Length == |tree.nbrs|
      ensures forall i :: 0 <= i < |tree.nbrs| ==> send[i] == receive[i] == {}
      ensures !clipped ==> Agreed(card, tree, Now()) && SameDistribution(card, tree, old(Now()), Now())
      ensures Known(card, tree) &&
              (RunningIntersection(tree, o) ==> (clipped <==> exists i, j, a :: TooGreat(card, tree, o, old(Now()), i, j, a)))
    {
      ghost var st: Stages, s0 := seq(|tree.nbrs|, _ => 0), Now();
      RunBegins(card, tree, o, st, s0, clipped);
      send, receive := StartLists(o);
      log := [];
      Shape(tree, o);
      assert Progress(o, st, s0, log);
      hide *;
      var messageSent := true;
      while messageSent
        invariant |st| == |tree.nbrs| && Progress(o, st, s0, log) && Lists(tree, o, st, send[..], receive[..])
        invariant !messageSent ==> Quiet(tree, o, st, 0, |st|)
        decreases Left(st), messageSent
      {
        messageSent, st, log := OnePass(send, receive, o, st, s0, log);
      }
      InProgress(o, st, s0, log);
      RunEnds(card, tree, o, st, s0, log, Now(), clipped, send[..], receive[..]);
    }
  }

  lemma AllToSend(t: Tree, o: Orientation)
    requires Oriented(t, o)
    ensures var st: Stages := seq(|t.nbrs|, _ => 0);
            forall i :: 0 <= i < |st| ==> ToSend(t, o, st, i) == ToReceive(t, o, st, i) == t.nbrs[i]
  {
    var st: Stages := seq(|t.nbrs|, _ => 0);
    forall i: nat, j: nat | i < |st| && j in t.nbrs[i]
      ensures o.Edge(i, j) && o.Edge(j, i) && !Sent(o, st, i, j) && !Sent(o, st, j, i)
    {
      assert o.Edge(j, i);
    }
  }

  lemma StartsCalibrated(card: seq<nat>, t: Tree, o: Orientation, st: Stages, s: State)
    requires Oriented(t, o) && st == seq(|t.nbrs|, _ => 0) && WellFormed(card, t, s)
    requires forall i: nat, j: nat :: i < |t.vars| && j < |t.vars| ==> Sep(s, i, j) == map[]
    ensures Reached(card, t, o, st, s, s)
  {
    Shape(t, o);
    hide Oriented, Over, Balanced, Keeps;
  }

  /** Nothing can be sent any more: all has been sent. */
  lemma KnownVars(card: seq<nat>, t: Tree, s: State)
    requires WellFormed(card, t, s)
    ensures Known(card, t)
  {
    hide Space;
    forall k | k in AllVars(t)
      ensures k < |card|
    {
      var i: nat :| i < |t.vars| && k in t.vars[i];
      assert Over(s.nodes[i], card, t.vars[i]);
    }
  }

  lemma RunBegins(card: seq<nat>, t: Tree, o: Orientation, st: Stages, s: State, clipped: bool)
    requires Oriented(t, o) && st == seq(|t.nbrs|, _ => 0) && WellFormed(card, t, s) && !clipped
    requires forall i: nat, j: nat :: i < |t.vars| && j < |t.vars| ==> Sep(s, i, j) == map[]
    ensures RunKeeps(card, t, o, st, s, [], s, clipped)
  {
    NothingSent(t, o);
    StartsCalibrated(card, t, o, st, s);
    KnownVars(card, t, s);
    FactoredFirst(card, t, o, st, s);
    NoneSent(t, o, st);
    hide Oriented, RunningIntersection, InOrder, Records, Reached, Factored, TooGreat;
  }

  lemma NoneSent(t: Tree, o: Orientation, st: Stages)
    requires Oriented(t, o) && st == seq(|t.nbrs|, _ => 0)
    ensures forall i: nat, j: nat :: o.Edge(i, j) ==> !Sent(o, st, i, j)
  {
  }

  lemma Finished(t: Tree, o: Orientation, st: Stages, log: Log, send: seq<set<nat>>, receive: seq<set<nat>>)
    requires Oriented(t, o) && InOrder(t, o, st) && Records(t, o, st, log) && Lists(t, o, st, send, receive)
    requires Quiet(t, o, st, 0, |st|)
    ensures forall c :: 0 <= c < |st| && c != o.order[0] ==> st[c] == 2
    ensures forall i: nat, j: nat :: multiset(log)[(i, j)] == if i < |t.nbrs| && j in t.nbrs[i] then 1 else 0
    ensures |send| == |receive| == |t.nbrs| && forall i :: 0 <= i < |t.nbrs| ==> send[i] == receive[i] == {}
  {
    Shape(t, o);
    NoDeadlock(t, o, st);
    hide Oriented, Enabled, InOrder, Records, ToSend, ToReceive;
    forall i: nat, j: nat
      ensures multiset(log)[(i, j)] == if i < |t.nbrs| && j in t.nbrs[i] then 1 else 0
    {
      EachEdgeBothWays(t, o, st, log, i, j);
    }
    forall i | 0 <= i < |t.nbrs|
      ensures send[i] == receive[i] == {}
    {
      AllDone(t, o, st, i);
    }
  }

  lemma AgreedAtEnd(card: seq<nat>, t: Tree, o: Orientation, st: Stages, s0: State, s: State)
    requires Oriented(t, o) && |st| == |t.nbrs| && Reached(card, t, o, st, s0, s)
    requires forall c :: 0 <= c < |st| && c != o.order[0] ==> st[c] == 2
    ensures Agreed(card, t, s) && SameDistribution(card, t, s0, s)
  {
    Shape(t, o);
    forall i: nat, j: nat | i < |t.nbrs| && j in t.nbrs[i] && j < |t.vars|
      ensures Over(Sep(s, i, j), card, Shared(t, i, j)) && Keeps(Sep(s, i, j), s.nodes[i], Shared(t, i, j))
    {
      Ends(t, o, i, j);
      Variables(card, t, s, i, j);
      hide Oriented, WellFormed, Over, Keeps;
      if o.Child(i, j) {
        assert EdgeOk(card, t, s, i, j, 2);
      } else {
        assert EdgeOk(card, t, s, j, i, 2);
      }
    }
  }

  lemma Ends(t: Tree, o: Orientation, i: nat, j: nat)
    requires Oriented(t, o) && i < |t.nbrs| && j in t.nbrs[i]
    ensures o.Edge(i, j) && j < |t.nbrs| && (o.Child(i, j) || o.Child(j, i))
  {
    assert o.Edge(j, i);
    OneWay(t, o, j, i);
  }

  /** Whether a node may send can be told from the lists. */
  lemma MaySend(t: Tree, o: Orientation, st: Stages, send: seq<set<nat>>, receive: seq<set<nat>>, i: nat)
    requires Oriented(t, o) && |st| == |t.nbrs| && i < |st| && Lists(t, o, st, send, receive)
    ensures |send| == |receive| == |st|
    ensures Enabled(t, o, st, i) <==>
            (i != o.order[0] && |send[i]| == |t.nbrs[i]| && |receive[i]| == 1) || (receive[i] == {} && send[i] != {})
  {
  }

  /** The first message of a node. */
  lemma FirstStep(t: Tree, o: Orientation, st: Stages, send: seq<set<nat>>, receive: seq<set<nat>>, i: nat, to: nat)
    requires Oriented(t, o) && InOrder(t, o, st) && i < |st| && Lists(t, o, st, send, receive) && i != o.order[0]
    requires |send| == |receive| == |st| && |send[i]| == |t.nbrs[i]| && |receive[i]| == 1 && to in receive[i]
    ensures to < |st| && i != to && o.Edge(i, to) && Ready(t, o, st, i, to) && receive[i] == {to}
    ensures |Passed(o, st, i, to)| == |t.nbrs|
    ensures Lists(t, o, Passed(o, st, i, to), send[i := send[i] - {to}], receive[to := receive[to] - {i}])
  {
    Only(receive[i], to);
    FirstMessage(t, o, st, i, to);
    HasParent(t, o, i);
    IsNeighbour(t, o, i, to);
    hide InOrder, ToSend, ToReceive;
    ListsAfter(t, o, st, send, receive, i, to);
  }

  /** An answer. */
  lemma AnswerStep(t: Tree, o: Orientation, st: Stages, send: seq<set<nat>>, receive: seq<set<nat>>, i: nat, to: nat)
    requires Oriented(t, o) && InOrder(t, o, st) && i < |st| && Lists(t, o, st, send, receive)
    requires |send| == |receive| == |st| && receive[i] == {} && to in send[i]
    ensures to < |st| && i != to && o.Edge(i, to) && Ready(t, o, st, i, to)
    ensures |Passed(o, st, i, to)| == |t.nbrs|
    ensures Lists(t, o, Passed(o, st, i, to), send[i := send[i] - {to}], receive[to := receive[to] - {i}])
  {
    LaterMessage(t, o, st, i, to);
    Downwards(t, o, to, i);
    hide InOrder, ToSend, ToReceive;
    ListsAfter(t, o, st, send, receive, i, to);
  }

  lemma Only(s: set<nat>, x: nat)
    requires |s| == 1 && x in s
    ensures s == {x}
  {
    assert |s - {x}| == 0;
  }

  lemma Downwards(t: Tree, o: Orientation, c: nat, p: nat)
    requires Oriented(t, o) && o.Child(c, p)
    ensures o.Edge(p, c) && !o.Child(p, c) && c < |t.nbrs| && p < |t.nbrs| && c in t.nbrs[p] && c != p
  {
    assert o.Edge(c, p);
    OneWay(t, o, c, p);
    IsNeighbour(t, o, p, c);
  }

  /** When no node may send any more. */
  lemma RunEnds(card: seq<nat>, t: Tree, o: Orientation, st: Stages, s0: State, log: Log, s: State, clipped: bool,
                send: seq<set<nat>>, receive: seq<set<nat>>)
    requires Oriented(t, o) && |st| == |t.nbrs| && RunKeeps(card, t, o, st, s0, log, s, clipped)
    requires Lists(t, o, st, send, receive) && Quiet(t, o, st, 0, |st|)
    ensures AllHeard(t, log) && Known(card, t)
    ensures forall i: nat, j: nat :: multiset(log)[(i, j)] == if i < |t.nbrs| && j in t.nbrs[i] then 1 else 0
    ensures |send| == |receive| == |t.nbrs| && forall i :: 0 <= i < |t.nbrs| ==> send[i] == receive[i] == {}
    ensures !clipped ==> Agreed(card, t, s) && SameDistribution(card, t, s0, s)
    ensures RunningIntersection(t, o) ==> (clipped <==> exists i, j, a :: TooGreat(card, t, o, s0, i, j, a))
  {
    Finished(t, o, st, log, send, receive);
    AllSent(t, o, st);
    hide Oriented, InOrder, Records, AllHeard, RunningIntersection, Lists, Quiet, Reached, Factored, Agreed, SameDistribution, Sent;
    if !clipped {
      AgreedAtEnd(card, t, o, st, s0, s);
      if RunningIntersection(t, o) {
        forall i: nat, j: nat, a
          ensures !TooGreat(card, t, o, s0, i, j, a)
        {
          if o.Edge(i, j) {
            assert Sent(o, st, i, j);
          }
        }
      }
    }
  }

  lemma AllSent(t: Tree, o: Orientation, st: Stages)
    requires Oriented(t, o) && |st| == |t.nbrs| && forall c :: 0 <= c < |st| && c != o.order[0] ==> st[c] == 2
    ensures forall i: nat, j: nat :: o.Edge(i, j) ==> Sent(o, st, i, j)
  {
    forall i: nat, j: nat | o.Edge(i, j)
      ensures Sent(o, st, i, j)
    {
      OneWay(t, o, i, j);
    }
  }

  lemma HeardFromOthers(t: Tree, o: Orientation, st: Stages, i: nat, j: nat)
    requires Oriented(t, o) && |st| == |t.nbrs| && i < |st| && o.Edge(i, j)
    requires if o.Child(i, j) then st[i] == 0 && (forall d: nat :: o.Child(d, i) ==> st[d] >= 1)
             else o.Child(j, i) && st[j] == 1 && Informed(t, o, st, i)
    ensures j in t.nbrs[i] && forall m :: m in t.nbrs[i] && m != j ==> o.Edge(m, i) && Sent(o, st, m, i)
  {
    OneWay(t, o, i, j);
    assert o.Edge(j, i);
    forall m | m in t.nbrs[i] && m != j
      ensures o.Edge(m, i) && Sent(o, st, m, i)
    {
      assert o.Edge(m, i);
      OneWay(t, o, m, i);
    }
  }

  lemma SharedEntries(card: seq<nat>, t: Table, k: set<nat>, e: set<nat>, news: Table)
    requires Over(t, card, k) && Over(news, card, e) && e <= k
    ensures forall y :: y in t ==> Restrict(y, e) in news
  {
    forall y | y in t
      ensures Restrict(y, e) in news
    {
      RestrictLegal(card, k, y, e);
    }
  }

  lemma MultipliedIsAbsorbed(t: Table, e: set<nat>, news: Table, olds: Table, temp: Table, product: Table)
    requires temp.Keys == news.Keys && forall a :: a in temp ==> temp[a] == Ratio(news[a], olds, a)
    requires forall y :: y in t ==> Restrict(y, e) in temp
    requires product.Keys == t.Keys && forall y :: y in product ==> product[y] == Times(t[y], temp[Restrict(y, e)])
    ensures product == Absorbed(t, e, news, olds)
  {
    hide Restrict, Ratio, Times;
  }

  lemma MessageWellFormed(card: seq<nat>, t: Tree, s: State, i: nat, j: nat, news: Table)
    requires WellFormed(card, t, s) && i < |t.vars| && j < |t.vars| && i != j && Over(news, card, Shared(t, i, j))
    ensures var e := Shared(t, i, j);
            WellFormed(card, t, State(s.nodes[j := Absorbed(s.nodes[j], e, news, Sep(s, i, j))], s.seps[{i, j} := news]))
  {
    hide Over, Absorbed;
    Variables(card, t, s, i, j);
    var e := Shared(t, i, j);
    Entries(news, card, e);
    Entries(Sep(s, i, j), card, e);
    AbsorbedOver(s.nodes[j], card, t.vars[j], e, news, Sep(s, i, j));
    var s' := State(s.nodes[j := Absorbed(s.nodes[j], e, news, Sep(s, i, j))], s.seps[{i, j} := news]);
    forall k: nat, m: nat | k < |t.vars| && m < |t.vars|
      ensures Sep(s', k, m) == map[] || Over(Sep(s', k, m), card, Shared(t, k, m))
    {
      if {k, m} == {i, j} {
        SamePair(k, m, i, j);
        Variables(card, t, s, i, j);
      }
    }
  }
}
