/** The join tree algorithm as a whole: create_bayesian_network_join_tree fills the tables and
    passes all messages, and probability() reads off the distribution of one node. */
module JoinTreeInference {
  import opened FiniteSums
  import opened Assignments
  import opened AssignmentOrder
  import opened Odometers
  import opened JoinTrees
  import opened JoinTreeMessages
  import opened JoinTreeCalibration
  import opened JoinTreePaths
  import opened JoinTreeMarginals
  import opened JoinTreePropagation
  import opened MessageLog
  import opened Networks
  import opened NetworkBounds
  import opened JoinTreeFactors
  import opened JoinTreeRuns
  import opened ProbabilityTables

  // ---- filling a clique ----

  /** The elements of s in ascending order. */
  ghost predicate Lists(keys: seq<nat>, s: set<nat>) {
    && (forall i, j :: 0 <= i < j < |keys| ==> keys[i] < keys[j])
    && (forall i :: 0 <= i < |keys| ==> keys[i] in s)
    && forall k :: k in s ==> k in keys
  }

  method Elements(s: set<nat>) returns (keys: seq<nat>)
    ensures Lists(keys, s)
  {
    keys := [];
    var rest := s;
    while rest != {}
      invariant rest <= s
      invariant forall i, j :: 0 <= i < j < |keys| ==> keys[i] < keys[j]
      invariant forall i :: 0 <= i < |keys| ==> keys[i] in s - rest
      invariant forall k :: k in s - rest ==> k in keys
      invariant forall i, k :: 0 <= i < |keys| && k in rest ==> keys[i] < k
      decreases rest
    {
      var k := Least(rest);
      keys := keys + [k];
      rest := rest - {k};
    }
  }

  /** What the vector node_assigned_to records while clique m is filled: the homes of the nodes that
      live in earlier cliques, and of those among the nodes in done that live in this one. Others
      that live in this one may be recorded, too. */
  ghost predicate Recorded(net: Network, t: Tree, homes: seq<nat>, m: nat, done: set<nat>) {
    |homes| == |net.card| &&
    forall n :: 0 <= n < |homes| ==>
      (Home(net, t, n) == m && homes[n] == m) ||
      (homes[n] == (if Home(net, t, n) < m then Home(net, t, n) else |t.vars|) && !(n in done && Home(net, t, n) == m))
  }

  lemma RecordedLength(net: Network, t: Tree, homes: seq<nat>, m: nat, done: set<nat>)
    requires Recorded(net, t, homes, m, done)
    ensures |homes| == |net.card|
  {
  }

  /** All nodes of the clique have been looked at. */
  lemma RecordedAll(net: Network, t: Tree, homes: seq<nat>, m: nat)
    requires m < |t.vars| && Recorded(net, t, homes, m, t.vars[m])
    ensures Recorded(net, t, homes, m + 1, {}) && Recorded(net, t, homes, m, {})
  {
    forall n | 0 <= n < |homes|
      ensures Home(net, t, n) == m ==> n in t.vars[m]
    {
    }
  }

  /** Looking at node n: it is taken in just if this clique is its home. */
  lemma TakenIn(net: Network, t: Tree, homes: seq<nat>, m: nat, done: set<nat>, n: nat)
    requires m < |t.vars| && Recorded(net, t, homes, m, done) && n < |homes|
    ensures Covers(net, t.vars[m], n) && (homes[n] == m || homes[n] == |t.vars|) <==> Home(net, t, n) == m
    ensures Recorded(net, t, if Home(net, t, n) == m then homes[n := m] else homes, m, done + {n})
  {
    if Covers(net, t.vars[m], n) {
      HomeBound(net, t, n, m, 0);
    }
  }

  lemma {:induction false} HomeBound(net: Network, t: Tree, n: nat, m: nat, i: nat)
    requires i <= m < |t.vars| && Covers(net, t.vars[m], n)
    ensures HomeFrom(net, t, n, i) <= m
    decreases m - i
  {
    if i < m {
      HomeBound(net, t, n, m, i + 1);
    }
  }

  /** 1, or 0 if the values contradict the evidence. */
  method EvidenceValue(net: Network, x: Assignment, keys: seq<nat>) returns (p: real)
    requires Lists(keys, x.Keys)
    ensures p == Indicator(net, x)
  {
    p := 1.0;
    var j := 0;
    while j < |keys|
      invariant 0 <= j <= |keys|
      invariant p == if forall m :: 0 <= m < j && keys[m] in net.evidence ==> x[keys[m]] == net.evidence[keys[m]] then 1.0 else 0.0
    {
      if keys[j] in net.evidence {
        if x[keys[j]] != net.evidence[keys[j]] {
          p := 0.0;
        }
      }
      j := j + 1;
    }
    IndicatorIs(net, x, keys, x.Keys);
  }

  /** The entry as far as the nodes in done go. */
  ghost function PartialEntry(net: Network, t: Tree, i: nat, x: Assignment, done: set<nat>): real {
    Times(Indicator(net, x), Product(done * Residents(net, t, i), Conditionals(net, x)))
  }

  /** The entry of clique i for the assignment x: 1, or 0 if it contradicts the evidence, times the
      probabilities of the nodes that live here. */
  method InitialValue(net: Network, t: Tree, i: nat, x: Assignment, keys: seq<nat>, homes: array<nat>) returns (p: real)
    requires i < |t.vars| && |net.parents| == |net.card| && Lists(keys, t.vars[i]) && x.Keys == t.vars[i]
    requires (forall k :: k in t.vars[i] ==> k < |net.card|) && Recorded(net, t, homes[..], i, {})
    modifies homes
    ensures p == InitialEntry(net, t, i, x)
    ensures Recorded(net, t, homes[..], i, t.vars[i])
  {
    hide Home, Covers, Times, Conditional, Recorded, PartialEntry, Indicator, InitialEntry, Lists;
    p := EvidenceValue(net, x, keys);
    ghost var done: set<nat> := {};
    NoResident(net, t, i, x);
    RecordedLength(net, t, homes[..], i, {});
    var j := 0;
    while j < |keys|
      invariant 0 <= j <= |keys| && Recorded(net, t, homes[..], i, done)
      invariant done == Elems(keys[..j])
      invariant p == PartialEntry(net, t, i, x, done)
    {
      var n := keys[j];
      NextElement(keys, t.vars[i], j);
      TakenIn(net, t, homes[..], i, done, n);
      OneResident(net, t, i, x, done, n);
      ghost var before := homes[..];
      if Covers(net, t.vars[i], n) && (homes[n] == i || homes[n] == |t.vars|) {
        homes[n] := i;
        assert homes[..] == before[n := i];
        p := Times(p, Conditional(net, x, n));
      }
      done := done + {n};
      j := j + 1;
    }
    AllElements(keys, t.vars[i]);
    AllResidents(net, t, i, x);
  }

  ghost function Elems(s: seq<nat>): set<nat> {
    set k | k in s
  }

  lemma NextElement(keys: seq<nat>, vars: set<nat>, j: nat)
    requires Lists(keys, vars) && j < |keys|
    ensures keys[j] in vars && keys[j] !in keys[..j]
    ensures Elems(keys[..j + 1]) == Elems(keys[..j]) + {keys[j]}
  {
    assert keys[..j + 1] == keys[..j] + [keys[j]];
  }

  lemma AllElements(keys: seq<nat>, vars: set<nat>)
    requires Lists(keys, vars)
    ensures Elems(keys[..|keys|]) == vars
  {
    assert keys[..|keys|] == keys;
  }

  lemma NoResident(net: Network, t: Tree, i: nat, x: Assignment)
    ensures PartialEntry(net, t, i, x, {}) == Indicator(net, x)
  {
    assert {} * Residents(net, t, i) == {};
    TimesOne(Indicator(net, x));
  }

  lemma IndicatorIs(net: Network, x: Assignment, keys: seq<nat>, vars: set<nat>)
    requires Lists(keys, vars) && x.Keys == vars
    ensures Indicator(net, x) ==
            if forall m :: 0 <= m < |keys| && keys[m] in net.evidence ==> x[keys[m]] == net.evidence[keys[m]] then 1.0 else 0.0
  {
    if forall m :: 0 <= m < |keys| && keys[m] in net.evidence ==> x[keys[m]] == net.evidence[keys[m]] {
      forall k | k in x && k in net.evidence
        ensures x[k] == net.evidence[k]
      {
        assert k in keys;
      }
    }
  }

  lemma OneResident(net: Network, t: Tree, i: nat, x: Assignment, done: set<nat>, n: nat)
    requires n !in done && n < |net.card|
    ensures PartialEntry(net, t, i, x, done + {n}) ==
            if Home(net, t, n) == i then Times(PartialEntry(net, t, i, x, done), Conditional(net, x, n))
            else PartialEntry(net, t, i, x, done)
  {
    hide Times, Home, Conditional, Indicator;
    var r, f, c := Residents(net, t, i), Conditionals(net, x), Indicator(net, x);
    if Home(net, t, n) == i {
      assert (done + {n}) * r == done * r + {n};
      ProductAdd(done * r, f, n);
      TimesSwap(c, f(n), Product(done * r, f));
      TimesCommute(f(n), Times(c, Product(done * r, f)));
    } else {
      assert (done + {n}) * r == done * r;
    }
  }

  lemma AllResidents(net: Network, t: Tree, i: nat, x: Assignment)
    requires i < |t.vars|
    ensures PartialEntry(net, t, i, x, t.vars[i]) == InitialEntry(net, t, i, x)
  {
    assert t.vars[i] * Residents(net, t, i) == Residents(net, t, i);
  }

  // ---- counting through the assignments of a clique ----

  /** The place of an assignment in the count. */
  ghost function Place(card: seq<nat>, keys: seq<nat>, x: Assignment): nat {
    if Has(card, keys, x) then Rank(card, keys, x) else 0
  }

  lemma LegalDigits(card: seq<nat>, vars: set<nat>, keys: seq<nat>, x: Assignment)
    requires Lists(keys, vars) && x.Keys == vars && forall k :: k in vars ==> k < |card|
    ensures Legal(card, vars, x) <==> Digits(card, keys, x)
  {
    if Digits(card, keys, x) {
      forall k | k in vars
        ensures x[k] < card[k]
      {
        assert k in keys;
      }
    }
  }

  lemma SamePlace(card: seq<nat>, vars: set<nat>, keys: seq<nat>, x: Assignment, z: Assignment)
    requires Lists(keys, vars) && (forall k :: k in vars ==> k < |card|) && Legal(card, vars, x) && Legal(card, vars, z)
    requires Place(card, keys, x) == Place(card, keys, z)
    ensures x == z
  {
    LegalDigits(card, vars, keys, x);
    LegalDigits(card, vars, keys, z);
    RankDetermines(card, keys, x, z);
    forall k | k in vars
      ensures x[k] == z[k]
    {
      assert k in keys;
    }
  }

  /** The next assignment is legal and has the next place; where there is none, the count is complete. */
  lemma NextPlace(card: seq<nat>, vars: set<nat>, keys: seq<nat>, x: Assignment)
    requires Lists(keys, vars) && (forall k :: k in vars ==> k < |card|) && Legal(card, vars, x)
    ensures Has(card, keys, x)
    ensures var (y, more) := Next(card, keys, x);
            if more then Legal(card, vars, y) && Place(card, keys, y) == Place(card, keys, x) + 1
            else forall z :: Legal(card, vars, z) ==> Place(card, keys, z) <= Place(card, keys, x)
  {
    hide Next, Rank;
    LegalDigits(card, vars, keys, x);
    NextRank(card, keys, x);
    var (y, more) := Next(card, keys, x);
    if more {
      LegalDigits(card, vars, keys, y);
    } else {
      forall z | Legal(card, vars, z)
        ensures Place(card, keys, z) <= Place(card, keys, x)
      {
        LegalDigits(card, vars, keys, z);
        NextEnds(card, keys, x, z);
      }
    }
  }

  /** Just the assignments before a given place have been visited, each of them at its place. */
  ghost predicate VisitedTo(card: seq<nat>, vars: set<nat>, keys: seq<nat>, visited: seq<Assignment>) {
    && (forall j :: 0 <= j < |visited| ==> Legal(card, vars, visited[j]) && Place(card, keys, visited[j]) == j)
    && forall x :: Legal(card, vars, x) && Place(card, keys, x) < |visited| ==> x in visited
  }

  lemma VisitOne(card: seq<nat>, vars: set<nat>, keys: seq<nat>, visited: seq<Assignment>, value: Assignment)
    requires Lists(keys, vars) && (forall k :: k in vars ==> k < |card|) && VisitedTo(card, vars, keys, visited)
    requires Legal(card, vars, value) && Place(card, keys, value) == |visited|
    ensures VisitedTo(card, vars, keys, visited + [value]) && value !in visited
  {
    hide Place, Legal, Lists;
    forall x | Legal(card, vars, x) && Place(card, keys, x) < |visited| + 1
      ensures x in visited + [value]
    {
      if Place(card, keys, x) == |visited| {
        SamePlace(card, vars, keys, x, value);
      }
    }
  }

  /** The table has the right entry for each assignment visited. */
  ghost predicate Filled(net: Network, t: Tree, i: nat, table: Table, visited: seq<Assignment>) {
    table.Keys == (set x | x in visited) && forall x :: x in table ==> table[x] == InitialEntry(net, t, i, x)
  }

  lemma FillOne(net: Network, t: Tree, i: nat, table: Table, visited: seq<Assignment>, x: Assignment)
    requires Filled(net, t, i, table, visited)
    ensures Filled(net, t, i, table[x := InitialEntry(net, t, i, x)], visited + [x])
  {
    hide InitialEntry;
  }

  /** Fills the table of clique i: every assignment is visited, and none of them twice. */
  method InitClique(net: Network, t: Tree, i: nat, homes: array<nat>) returns (table: Table, ghost visited: seq<Assignment>)
    requires net.Ok() && i < |t.vars| && (forall k :: k in t.vars[i] ==> k < |net.card|)
    requires Recorded(net, t, homes[..], i, {})
    modifies homes
    ensures Recorded(net, t, homes[..], i + 1, {})
    ensures forall j, k :: 0 <= j < k < |visited| ==> visited[j] != visited[k]
    ensures forall x :: x in visited <==> x in Space(net.card, t.vars[i])
    ensures table.Keys == Space(net.card, t.vars[i]) && forall x :: x in table ==> table[x] == InitialEntry(net, t, i, x)
  {
    hide Recorded, InitialEntry, Rank, Next, Lists, Place, VisitedTo, Filled, Space;
    ghost var vars := t.vars[i];
    var keys := Elements(t.vars[i]);
    var value: Assignment := map k | k in t.vars[i] :: 0;
    FirstPlace(net.card, vars, keys, value);
    table, visited := map[], [];
    NothingVisited(net, t, i, keys);
    var more := true;
    while more
      invariant value.Keys == vars && Recorded(net, t, homes[..], i, {})
      invariant VisitedTo(net.card, vars, keys, visited) && Filled(net, t, i, table, visited)
      invariant forall j, k :: 0 <= j < k < |visited| ==> visited[j] != visited[k]
      invariant more ==> Legal(net.card, vars, value) && Place(net.card, keys, value) == |visited|
      invariant !more ==> Recorded(net, t, homes[..], i, vars)
      invariant !more ==> forall z :: Legal(net.card, vars, z) ==> Place(net.card, keys, z) < |visited|
      decreases |Space(net.card, vars)| - |visited|, more
    {
      VisitOne(net.card, vars, keys, visited, value);
      NextPlace(net.card, vars, keys, value);
      FillOne(net, t, i, table, visited, value);
      RoomLeft(net.card, vars, keys, visited + [value]);
      var p := InitialValue(net, t, i, value, keys, homes);
      RecordedAll(net, t, homes[..], i);
      table := table[value := p];
      visited := visited + [value];
      value, more := Advance(net.card, keys, value);
    }
    RecordedAll(net, t, homes[..], i);
    AllVisited(net, t, i, table, visited, keys);
  }

  lemma FirstPlace(card: seq<nat>, vars: set<nat>, keys: seq<nat>, value: Assignment)
    requires Lists(keys, vars) && Positive(card) && value.Keys == vars && forall k :: k in vars ==> k < |card| && value[k] == 0
    ensures Legal(card, vars, value) && Place(card, keys, value) == 0
  {
    LegalDigits(card, vars, keys, value);
    ZeroRank(card, keys, value);
  }

  lemma NothingVisited(net: Network, t: Tree, i: nat, keys: seq<nat>)
    requires i < |t.vars|
    ensures VisitedTo(net.card, t.vars[i], keys, []) && Filled(net, t, i, map[], [])
  {
  }

  lemma {:induction false} RoomLeft(card: seq<nat>, vars: set<nat>, keys: seq<nat>, visited: seq<Assignment>)
    requires (forall k :: k in vars ==> k < |card|) && VisitedTo(card, vars, keys, visited)
    ensures |visited| <= |Space(card, vars)|
  {
    hide Space, Place;
    DistinctFit(visited, Space(card, vars));
  }

  lemma {:induction false} DistinctFit<T>(v: seq<T>, s: set<T>)
    requires (forall j :: 0 <= j < |v| ==> v[j] in s) && forall j, k :: 0 <= j < k < |v| ==> v[j] != v[k]
    ensures |v| <= |s|
  {
    if v != [] {
      var last := v[|v| - 1];
      DistinctFit(v[..|v| - 1], s - {last});
    }
  }

  lemma AllVisited(net: Network, t: Tree, i: nat, table: Table, visited: seq<Assignment>, keys: seq<nat>)
    requires i < |t.vars| && (forall k :: k in t.vars[i] ==> k < |net.card|)
    requires VisitedTo(net.card, t.vars[i], keys, visited) && Filled(net, t, i, table, visited)
    requires forall z :: Legal(net.card, t.vars[i], z) ==> Place(net.card, keys, z) < |visited|
    ensures forall x :: x in visited <==> x in Space(net.card, t.vars[i])
    ensures table.Keys == Space(net.card, t.vars[i]) && forall x :: x in table ==> table[x] == InitialEntry(net, t, i, x)
  {
    hide Space, InitialEntry, Place, Legal;
  }

  // ---- the whole algorithm ----

  /** What the source asks of a network and its join tree: legal probabilities, a tree with the path
      condition, and every node in some clique. */
  ghost predicate Suitable(net: Network, t: Tree, o: Orientation) {
    && net.Ok() && |t.vars| == |t.nbrs| && Oriented(t, o) && o.order[0] == 0 && PathCondition(t)
    && AllVars(t) == Below(|net.card|)
  }

  lemma CliqueVars(net: Network, t: Tree, i: nat)
    requires AllVars(t) == Below(|net.card|) && i < |t.vars|
    ensures forall k :: k in t.vars[i] ==> k < |net.card|
  {
    WithinAll(t, i);
  }

  lemma EntriesNonNegative(net: Network, t: Tree, i: nat, x: Assignment)
    requires net.Ok()
    ensures InitialEntry(net, t, i, x) >= 0.0
  {
    hide Home;
    var c := Conditionals(net, x);
    ProductMonotone(Residents(net, t, i), c, c);
    TimesSign(Indicator(net, x), Product(Residents(net, t, i), Conditionals(net, x)));
  }

  /** Fills the tables of all cliques. */
  method Initialize(net: Network, t: Tree) returns (nodes: seq<Table>)
    requires net.Ok() && |t.vars| == |t.nbrs| && AllVars(t) == Below(|net.card|)
    ensures Initialized(net, t, State(nodes, map[]))
  {
    hide InitialEntry, Space, Home, Recorded;
    var homes := new nat[|net.card|](_ => |t.vars|);
    NothingRecorded(net, t, homes[..]);
    nodes := [];
    var i := 0;
    while i < |t.vars|
      invariant 0 <= i <= |t.vars| && |nodes| == i && Recorded(net, t, homes[..], i, {})
      invariant forall j :: 0 <= j < i ==> Over(nodes[j], net.card, t.vars[j])
      invariant forall j, x :: 0 <= j < i && x in nodes[j] ==> nodes[j][x] == InitialEntry(net, t, j, x)
    {
      CliqueVars(net, t, i);
      ghost var visited;
      var table;
      table, visited := InitClique(net, t, i, homes);
      forall x | x in table
        ensures table[x] >= 0.0
      {
        EntriesNonNegative(net, t, i, x);
      }
      nodes := nodes + [table];
      i := i + 1;
    }
  }

  lemma NothingRecorded(net: Network, t: Tree, homes: seq<nat>)
    requires |homes| == |net.card| && forall n :: 0 <= n < |homes| ==> homes[n] == |t.vars|
    ensures Recorded(net, t, homes, 0, {})
  {
  }

  /** The tables say what they are meant to say: each clique has the joint probability of its
      variables and the evidence. */
  ghost predicate Inferred(net: Network, t: Tree, nodes: seq<Table>, joint: Assignment -> real)
    requires |nodes| == |t.vars| && forall k :: k in AllVars(t) ==> k < |net.card|
  {
    forall i, x :: 0 <= i < |nodes| && x in nodes[i] ==>
      nodes[i][x] == MarginalOf(net.card, AllVars(t), joint, t.vars[i], x)
  }

  /** create_bayesian_network_join_tree. Unless a sum was cut off at 1, every clique ends up with
      exactly the marginal, over its variables, of the joint probability of the network with its
      evidence; a node whose parents are in no clique with it is left out of that joint probability.
      For a proper network none is left out, and no sum is cut off. A sum is cut off just if one
      of the first tables s0 makes a message too great. */
  method CreateJoinTree(net: Network, t: Tree, ghost o: Orientation) returns (b: BayesianJoinTree, ghost log: Log, ghost s0: State)
    requires Suitable(net, t, o)
    ensures fresh(b) && b.Valid() && b.card == net.card && b.tree == t && AllHeard(t, log)
    ensures forall i: nat, j: nat :: multiset(log)[(i, j)] == if i < |t.nbrs| && j in t.nbrs[i] then 1 else 0
    ensures !b.clipped ==> Inferred(net, t, b.nodes, HousedJoint(net, t))
    ensures !b.clipped && AllTogether(net, t) ==> Inferred(net, t, b.nodes, Joint(net))
    ensures Proper(net) && AllTogether(net, t) ==> !b.clipped
    ensures Initialized(net, t, s0) && Known(net.card, t)
    ensures b.clipped <==> exists i, j, a :: TooGreat(net.card, t, o, s0, i, j, a)
  {
    PathsIntersect(t, o);
    hide Oriented, PathCondition, RunningIntersection, Over, AllTogether, Balanced, Inferred, HousedJoint, Joint, AllHeard, Proper, TooGreat;
    var nodes := Initialize(net, t);
    b := new BayesianJoinTree(net.card, t, nodes);
    s0 := b.Now();
    var send, receive;
    log, send, receive := b.Propagate(o);
    if Proper(net) && AllTogether(net, t) {
      NothingTooGreat(net, t, o, s0);
    }
    if !b.clipped {
      InferredFrom(net, t, o, s0, b.Now());
      if AllTogether(net, t) {
        InferredJoint(net, t, b.nodes);
      }
    }
  }

  lemma NothingTooGreat(net: Network, t: Tree, o: Orientation, s: State)
    requires Proper(net) && Initialized(net, t, s) && Oriented(t, o) && RunningIntersection(t, o)
    requires AllTogether(net, t) && AllVars(t) == Below(|net.card|) && Known(net.card, t)
    ensures forall i, j, a :: !TooGreat(net.card, t, o, s, i, j, a)
  {
    hide Oriented, RunningIntersection, Initialized, Proper, AllTogether, TooGreat, Known;
    forall i: nat, j: nat, a
      ensures !TooGreat(net.card, t, o, s, i, j, a)
    {
      NeverTooGreat(net, t, o, s, i, j, a);
    }
  }

  lemma AgreedLength(card: seq<nat>, t: Tree, s: State)
    requires Agreed(card, t, s)
    ensures |s.nodes| == |t.vars|
  {
  }

  lemma InferredFrom(net: Network, t: Tree, o: Orientation, s0: State, s: State)
    requires Suitable(net, t, o) && Initialized(net, t, s0)
    requires Agreed(net.card, t, s) && SameDistribution(net.card, t, s0, s)
    ensures |s.nodes| == |t.vars| && Inferred(net, t, s.nodes, HousedJoint(net, t))
  {
    hide Oriented, PathCondition, Over, Balanced, MarginalOf, HousedJoint, Agreed, Initialized;
    var joint := HousedJoint(net, t);
    AgreedLength(net.card, t, s);
    forall w | Legal(net.card, AllVars(t), w)
      ensures Balanced(t, s, w, joint(w))
    {
      InitialBalance(net, t, s0, w);
    }
    forall i, x | 0 <= i < |s.nodes| && x in s.nodes[i]
      ensures s.nodes[i][x] == MarginalOf(net.card, AllVars(t), joint, t.vars[i], x)
    {
      CliquesAreMarginals(net.card, t, o, s, joint, i, x);
    }
  }

  lemma InferredJoint(net: Network, t: Tree, nodes: seq<Table>)
    requires |nodes| == |t.vars| && (forall k :: k in AllVars(t) ==> k < |net.card|)
    requires Inferred(net, t, nodes, HousedJoint(net, t)) && AllTogether(net, t)
    ensures Inferred(net, t, nodes, Joint(net))
  {
    hide FamilyTogether, HousedJoint, Joint, Space;
    AllHoused(net, t);
    forall i, x | 0 <= i < |nodes| && x in nodes[i]
      ensures nodes[i][x] == MarginalOf(net.card, AllVars(t), Joint(net), t.vars[i], x)
    {
      SumSame(Worlds(net.card, AllVars(t), t.vars[i], x), HousedJoint(net, t), Joint(net));
    }
  }

  // ---- reading off the distribution of one node ----

  /** The smallest clique that has a node, the first one of several. */
  method SmallestClique(t: Tree, n: nat) returns (c: nat)
    requires exists i: nat :: i < |t.vars| && n in t.vars[i]
    ensures c < |t.vars| && n in t.vars[c]
    ensures forall i :: 0 <= i < |t.vars| && n in t.vars[i] ==> |t.vars[c]| <= |t.vars[i]| && (i < c ==> |t.vars[c]| < |t.vars[i]|)
  {
    c := 0;
    var found, i := false, 0;
    while i < |t.vars|
      invariant 0 <= i <= |t.vars| && (found <==> exists j: nat :: j < i && n in t.vars[j])
      invariant found ==> c < i && n in t.vars[c]
      invariant found ==> forall j :: 0 <= j < i && n in t.vars[j] ==> |t.vars[c]| <= |t.vars[j]| && (j < c ==> |t.vars[c]| < |t.vars[j]|)
    {
      if n in t.vars[i] && (!found || |t.vars[i]| < |t.vars[c]|) {
        c, found := i, true;
      }
      i := i + 1;
    }
  }

  /** Node n has value v. */
  function Single(n: nat, v: nat): (a: Assignment)
    ensures n in a && a[n] == v
  {
    map[n := v]
  }

  /** The probability that node n has value v, together with the evidence. */
  ghost function ValueProbability(net: Network, joint: Assignment -> real, n: nat): nat -> real {
    (v: nat) => MarginalOf(net.card, Below(|net.card|), joint, {n}, Single(n, v))
  }

  /** The same, cut off at 1 if clique c has several assignments with that value. */
  ghost function SeenProbability(net: Network, t: Tree, joint: Assignment -> real, c: nat, n: nat): nat -> real
    requires c < |t.vars| && AllVars(t) == Below(|net.card|)
  {
    CliqueVars(net, t, c);
    (v: nat) =>
      if |Worlds(net.card, t.vars[c], {n}, Single(n, v))| > 1 && ValueProbability(net, joint, n)(v) > 1.0 then 1.0
      else ValueProbability(net, joint, n)(v)
  }

  /** The probabilities of the values of a node, together with the evidence, make up that of the evidence. */
  lemma EvidenceProbability(net: Network, joint: Assignment -> real, n: nat)
    requires net.Ok() && n < |net.card|
    ensures Sum(Below(net.card[n]), ValueProbability(net, joint, n)) == Sum(Space(net.card, Below(|net.card|)), joint)
  {
    var s := Space(net.card, Below(|net.card|));
    var h := ValueOf(n);
    forall w | w in s
      ensures h(w) in Below(net.card[n])
    {
    }
    forall v: nat | v in Below(net.card[n])
      ensures ValueProbability(net, joint, n)(v) == Sum(Fiber(s, h, v), joint)
    {
      WorldsByValue(net, n, v, s);
    }
    SumByGroups(s, joint, Below(net.card[n]), h, ValueProbability(net, joint, n));
  }

  function ValueOf(n: nat): Assignment -> nat {
    (w: Assignment) => if n in w then w[n] else 0
  }

  lemma RestrictOne(w: Assignment, n: nat, v: nat)
    requires n in w
    ensures Restrict(w, {n}) == Single(n, v) <==> ValueOf(n)(w) == v
  {
    assert Restrict(w, {n}).Keys == {n} && Restrict(w, {n})[n] == w[n];
  }

  lemma WorldsByValue(net: Network, n: nat, v: nat, s: set<Assignment>)
    requires n < |net.card| && s == Space(net.card, Below(|net.card|))
    ensures Worlds(net.card, Below(|net.card|), {n}, Single(n, v)) == Fiber(s, ValueOf(n), v)
  {
    hide Space, Restrict, Single, ValueOf;
    forall w | w in s
      ensures Restrict(w, {n}) == Single(n, v) <==> ValueOf(n)(w) == v
    {
      assert n in w;
      RestrictOne(w, n, v);
    }
  }

  /** In a proper network nothing is cut off. */
  lemma AllSeen(net: Network, t: Tree, c: nat, n: nat)
    requires Proper(net) && n < |net.card| && c < |t.vars| && AllVars(t) == Below(|net.card|)
    ensures forall v: nat :: SeenProbability(net, t, Joint(net), c, n)(v) == ValueProbability(net, Joint(net), n)(v)
    ensures Sum(Below(net.card[n]), SeenProbability(net, t, Joint(net), c, n)) == Sum(Below(net.card[n]), ValueProbability(net, Joint(net), n))
  {
    forall v: nat
      ensures SeenProbability(net, t, Joint(net), c, n)(v) == ValueProbability(net, Joint(net), n)(v)
    {
      ValueAtMostOne(net, n, v);
    }
    SumSame(Below(net.card[n]), SeenProbability(net, t, Joint(net), c, n), ValueProbability(net, Joint(net), n));
  }

  /** In a proper network these are at most 1. */
  lemma ValueAtMostOne(net: Network, n: nat, v: nat)
    requires Proper(net) && n < |net.card|
    ensures ValueProbability(net, Joint(net), n)(v) <= 1.0
  {
    ValueBounded(net, n, Single(n, v));
  }

  /** A clique gives the right marginals for each of its nodes. */
  lemma NodeMarginal(net: Network, t: Tree, s: State, joint: Assignment -> real, i: nat, n: nat, v: nat)
    requires AllVars(t) == Below(|net.card|) && WellFormed(net.card, t, s) && Inferred(net, t, s.nodes, joint)
    requires i < |t.vars| && n in t.vars[i]
    ensures Marginal(s.nodes[i], {n}, Single(n, v)) == ValueProbability(net, joint, n)(v)
  {
    hide Space, Single;
    var vars, node, a := t.vars[i], s.nodes[i], Single(n, v);
    WithinAll(t, i);
    CliqueVars(net, t, i);
    assert Worlds(net.card, vars, {n}, a) == Above(node, {n}, a);
    Tower(net.card, AllVars(t), joint, vars, {n}, a, At(node));
  }

  /** The assignments to one node. */
  ghost predicate IsSingle(a: Assignment, n: nat, k: nat) {
    n in a && a[n] < k && a == Single(n, a[n])
  }

  lemma {:induction false} ValuesOf(n: nat, k: nat, s: set<Assignment>)
    requires forall a :: a in s <==> IsSingle(a, n, k)
    ensures |s| == k
    decreases k
  {
    hide Single;
    if k > 0 {
      var last := Single(n, k - 1);
      assert IsSingle(last, n, k);
      forall a: Assignment
        ensures a in s - {last} <==> IsSingle(a, n, k - 1)
      {
      }
      ValuesOf(n, k - 1, s - {last});
    }
  }

  lemma SpaceOfOne(card: seq<nat>, n: nat)
    requires n < |card|
    ensures |Space(card, {n})| == card[n] && forall a :: a in Space(card, {n}) <==> IsSingle(a, n, card[n])
  {
    forall a: Assignment
      ensures a in Space(card, {n}) <==> IsSingle(a, n, card[n])
    {
      if Legal(card, {n}, a) {
        assert a.Keys == {n};
      }
    }
    ValuesOf(n, card[n], Space(card, {n}));
  }

  /** Summing over the assignments of one node is summing over its values. */
  lemma TotalOfOne(card: seq<nat>, n: nat, table: Table, p: nat -> real)
    requires n < |card| && table.Keys == Space(card, {n}) && forall v: nat :: v < card[n] ==> Entry(table, Single(n, v)) == p(v)
    ensures Total(table) == Sum(Below(card[n]), p)
  {
    SpaceOfOne(card, n);
    hide Space, Single, Below;
    var h := (v: nat) => Single(n, v);
    forall v | v in Below(card[n])
      ensures h(v) in table.Keys && p(v) == At(table)(h(v))
    {
      assert IsSingle(Single(n, v), n, card[n]);
    }
    forall a | a in table.Keys
      ensures exists v :: v in Below(card[n]) && h(v) == a
    {
      assert IsSingle(a, n, card[n]);
      assert a[n] in Below(card[n]) && h(a[n]) == a;
    }
    SumImage(Below(card[n]), p, table.Keys, At(table), h);
  }

  /** The numbers of a list. */
  function Nth(s: seq<real>): nat -> real {
    (v: nat) => if v < |s| then s[v] else 0.0
  }

  lemma ReadOffTotal(net: Network, n: nat, table: Table, dist: seq<real>)
    requires n < |net.card| && table.Keys == Space(net.card, {n}) && |dist| == net.card[n]
    requires forall v: nat :: v < |dist| ==> Single(n, v) in table && dist[v] == table[Single(n, v)]
    ensures Sum(Below(|dist|), Nth(dist)) == Total(table)
  {
    hide Space, Single, Total;
    TotalOfOne(net.card, n, table, Nth(dist));
  }

  /** probability(): the distribution of one node given the evidence, read off the smallest clique c
      that has the node. It exists unless the evidence has probability 0, and it is the joint
      probability of each value and the evidence over their sum; sums over several assignments of
      the clique are cut off at 1, which AllSeen excludes for proper networks. */
  method Probability(net: Network, b: BayesianJoinTree, n: nat, ghost joint: Assignment -> real)
    returns (ok: bool, dist: array<real>, ghost c: nat)
    requires net.Ok() && b.Valid() && b.card == net.card && AllVars(b.tree) == Below(|net.card|) && n < |net.card|
    requires Inferred(net, b.tree, b.nodes, joint)
    ensures c < |b.tree.vars| && n in b.tree.vars[c]
    ensures forall i :: 0 <= i < |b.tree.vars| && n in b.tree.vars[i] ==> |b.tree.vars[c]| <= |b.tree.vars[i]|
    ensures ok <==> Sum(Below(net.card[n]), SeenProbability(net, b.tree, joint, c, n)) != 0.0
    ensures ok ==> dist.Length == net.card[n] && Sum(Below(dist.Length), Nth(dist[..])) == 1.0
    ensures ok ==> forall v: nat :: v < net.card[n] ==>
              Times(dist[v], Sum(Below(net.card[n]), SeenProbability(net, b.tree, joint, c, n))) ==
              SeenProbability(net, b.tree, joint, c, n)(v)
  {
    hide Space, Inferred, Over, Accumulated, MarginalOf, Total, Marginal, Single, ValueProbability, Image, Above, WellFormed, SeenProbability, Nth, Times;
    InSomeClique(b.tree, net, n);
    var smallest := SmallestClique(b.tree, n);
    c := smallest;
    CliqueEntries(net.card, b.tree, b.Now(), c);
    var clique := new JointProbabilityTable(b.nodes[smallest]);
    var table := new JointProbabilityTable(map[]);
    clique.Marginalize({n}, table);
    OneNodeTable(net, b.tree, b.Now(), joint, c, n, table.table);
    ok, dist := NormalizedValues(net, n, table, SeenProbability(net, b.tree, joint, c, n));
  }

  /** Normalizes a table of one node, whose entries are given by seen, and reads it off. */
  method NormalizedValues(net: Network, n: nat, table: JointProbabilityTable, ghost seen: nat -> real)
    returns (ok: bool, dist: array<real>)
    requires n < |net.card| && table.table.Keys == Space(net.card, {n})
    requires Total(table.table) == Sum(Below(net.card[n]), seen)
    requires forall v: nat :: v < net.card[n] ==> Single(n, v) in table.table && table.table[Single(n, v)] == seen(v)
    modifies table
    ensures ok <==> Sum(Below(net.card[n]), seen) != 0.0
    ensures ok ==> dist.Length == net.card[n] && Sum(Below(dist.Length), Nth(dist[..])) == 1.0
    ensures ok ==> forall v: nat :: v < net.card[n] ==> Times(dist[v], Sum(Below(net.card[n]), seen)) == seen(v)
  {
    hide *;
    ghost var before := table.table;
    ok := table.Normalize();
    if ok {
      OneNodeCount(net, n, before);
      dist := ReadOff(table.table, n);
      Answers(net, n, seen, before, table.table, dist[..]);
    } else {
      dist := new real[0];
    }
  }

  lemma OneNodeCount(net: Network, n: nat, table: Table)
    requires n < |net.card| && table.Keys == Space(net.card, {n})
    ensures |table| == net.card[n] && forall v: nat :: v < |table| ==> Single(n, v) in table
  {
    SpaceOfOne(net.card, n);
    hide Space, Single;
    forall v: nat | v < |table|
      ensures Single(n, v) in table
    {
      assert IsSingle(Single(n, v), n, net.card[n]);
    }
  }

  /** The answer that is read off the normalized table. */
  lemma Answers(net: Network, n: nat, seen: nat -> real, before: Table, after: Table, dist: seq<real>)
    requires n < |net.card| && before.Keys == after.Keys == Space(net.card, {n}) && |dist| == net.card[n]
    requires Total(before) == Sum(Below(net.card[n]), seen) && Total(after) == 1.0
    requires forall a :: a in after ==> Times(after[a], Total(before)) == before[a]
    requires forall v: nat :: v < net.card[n] ==> Single(n, v) in before && before[Single(n, v)] == seen(v)
    requires forall v: nat :: v < |dist| ==> Single(n, v) in after && dist[v] == after[Single(n, v)]
    ensures Sum(Below(|dist|), Nth(dist)) == 1.0
    ensures forall v: nat :: v < net.card[n] ==> Times(dist[v], Sum(Below(net.card[n]), seen)) == seen(v)
  {
    hide *;
    ReadOffTotal(net, n, after, dist);
  }

  /** The entries of a table of one node, by value. */
  method ReadOff(table: Table, n: nat) returns (dist: array<real>)
    requires forall v: nat :: v < |table| ==> Single(n, v) in table
    ensures dist.Length == |table| && forall v: nat :: v < |table| ==> dist[v] == table[Single(n, v)]
  {
    hide Single;
    dist := new real[|table|](_ => 0.0);
    var i := 0;
    while i < |table|
      invariant 0 <= i <= |table| && forall v: nat :: v < i ==> dist[v] == table[Single(n, v)]
    {
      dist[i] := table[Single(n, i)];
      i := i + 1;
    }
  }

  lemma CliqueEntries(card: seq<nat>, t: Tree, s: State, c: nat)
    requires WellFormed(card, t, s) && c < |t.vars|
    ensures |s.nodes| == |t.vars| && Over(s.nodes[c], card, t.vars[c])
    ensures s.nodes[c].Keys == Space(card, t.vars[c]) && forall a :: a in s.nodes[c] ==> s.nodes[c][a] >= 0.0
  {
  }

  lemma InSomeClique(t: Tree, net: Network, n: nat)
    requires AllVars(t) == Below(|net.card|) && n < |net.card|
    ensures exists i: nat :: i < |t.vars| && n in t.vars[i]
  {
    assert n in AllVars(t);
  }

  lemma SingleMarginals(net: Network, t: Tree, s: State, joint: Assignment -> real, c: nat, n: nat, table: Table)
    requires net.Ok() && AllVars(t) == Below(|net.card|) && WellFormed(net.card, t, s) && Inferred(net, t, s.nodes, joint)
    requires c < |t.vars| && n in t.vars[c] && n < |net.card|
    requires table.Keys == Image(s.nodes[c].Keys, {n})
    requires forall a :: a in table ==> table[a] == Accumulated(Above(s.nodes[c], {n}, a), At(s.nodes[c]))
    ensures table.Keys == Space(net.card, {n})
    ensures forall v: nat :: v < net.card[n] ==> Entry(table, Single(n, v)) == SeenProbability(net, t, joint, c, n)(v)
  {
    CliqueVars(net, t, c);
    CliqueEntries(net.card, t, s, c);
    ImageIsSpace(net.card, t.vars[c], {n});
    hide Space, Inferred, Accumulated, MarginalOf, Marginal, Image, ValueProbability, Single, WellFormed, Over, Above;
    forall v: nat | v < net.card[n]
      ensures Entry(table, Single(n, v)) == SeenProbability(net, t, joint, c, n)(v)
    {
      NodeMarginal(net, t, s, joint, c, n, v);
      SingleEntry(net.card, s.nodes[c], t.vars[c], n, v, table);
      SeenIs(net, t, joint, c, n, v, s.nodes[c]);
    }
  }

  /** The table of one node before it is normalized. */
  lemma OneNodeTable(net: Network, t: Tree, s: State, joint: Assignment -> real, c: nat, n: nat, table: Table)
    requires net.Ok() && AllVars(t) == Below(|net.card|) && WellFormed(net.card, t, s) && Inferred(net, t, s.nodes, joint)
    requires c < |t.vars| && n in t.vars[c] && n < |net.card|
    requires table.Keys == Image(s.nodes[c].Keys, {n})
    requires forall a :: a in table ==> table[a] == Accumulated(Above(s.nodes[c], {n}, a), At(s.nodes[c]))
    ensures table.Keys == Space(net.card, {n})
    ensures |table.Keys| == net.card[n] && Total(table) == Sum(Below(net.card[n]), SeenProbability(net, t, joint, c, n))
    ensures forall v: nat :: v < net.card[n] ==>
              Single(n, v) in table && table[Single(n, v)] == SeenProbability(net, t, joint, c, n)(v)
  {
    hide Image, Inferred, WellFormed, Space, Single, SeenProbability, Accumulated, Above, Total, MarginalOf;
    SingleMarginals(net, t, s, joint, c, n, table);
    ValuesTable(net.card, n, table, SeenProbability(net, t, joint, c, n));
  }

  lemma ValuesTable(card: seq<nat>, n: nat, table: Table, p: nat -> real)
    requires n < |card| && table.Keys == Space(card, {n}) && forall v: nat :: v < card[n] ==> Entry(table, Single(n, v)) == p(v)
    ensures |table.Keys| == card[n] && Total(table) == Sum(Below(card[n]), p)
    ensures forall v: nat :: v < card[n] ==> Single(n, v) in table && table[Single(n, v)] == p(v)
  {
    hide Space, Single, Total;
    TotalOfOne(card, n, table, p);
    SpaceOfOne(card, n);
    forall v: nat | v < card[n]
      ensures Single(n, v) in table
    {
      assert IsSingle(Single(n, v), n, card[n]);
    }
  }

  lemma SingleEntry(card: seq<nat>, node: Table, vars: set<nat>, n: nat, v: nat, table: Table)
    requires Over(node, card, vars) && n < |card| && v < card[n] && table.Keys == Space(card, {n})
    requires forall a :: a in table ==> table[a] == Accumulated(Above(node, {n}, a), At(node))
    ensures Entry(table, Single(n, v)) == Accumulated(Above(node, {n}, Single(n, v)), At(node))
  {
    SpaceOfOne(card, n);
    hide Space, Accumulated, Single, Over, Above;
    assert IsSingle(Single(n, v), n, card[n]);
  }

  lemma SeenIs(net: Network, t: Tree, joint: Assignment -> real, c: nat, n: nat, v: nat, node: Table)
    requires c < |t.vars| && AllVars(t) == Below(|net.card|) && Over(node, net.card, t.vars[c])
    requires Marginal(node, {n}, Single(n, v)) == ValueProbability(net, joint, n)(v)
    ensures Accumulated(Above(node, {n}, Single(n, v)), At(node)) == SeenProbability(net, t, joint, c, n)(v)
  {
    CliqueVars(net, t, c);
    AboveIsWorlds(net.card, t.vars[c], node, {n}, Single(n, v));
    hide ValueProbability, Single, Above, Worlds, Over;
  }
}
