/** The messages passed so far: which, how often, and in which order. */
module MessageLog {
  import opened JoinTrees

  type Log = seq<(nat, nat)>

  /** Message k of the log was sent by a node that had heard from all its other neighbours. */
  ghost predicate Heard(t: Tree, log: Log, k: nat)
    requires k < |log|
  {
    log[k].0 < |t.nbrs| && log[k].1 in t.nbrs[log[k].0] &&
    forall m :: m in t.nbrs[log[k].0] && m != log[k].1 ==> (m, log[k].0) in log[..k]
  }

  ghost predicate AllHeard(t: Tree, log: Log) {
    forall k: nat :: k < |log| ==> Heard(t, log, k)
  }

  /** The log holds just the messages that have been sent, each of them once. */
  ghost predicate Records(t: Tree, o: Orientation, st: Stages, log: Log)
    requires Oriented(t, o) && |st| == |t.nbrs|
  {
    && (forall k :: 0 <= k < |log| ==> log[k].0 < |st| && log[k].1 in t.nbrs[log[k].0])
    && forall i: nat, j: nat :: i < |st| && j in t.nbrs[i] ==>
         o.Edge(i, j) && multiset(log)[(i, j)] == if Sent(o, st, i, j) then 1 else 0
  }

  lemma NothingSent(t: Tree, o: Orientation)
    requires Oriented(t, o)
    ensures var st := seq(|t.nbrs|, _ => 0); InOrder(t, o, st) && Records(t, o, st, []) && AllHeard(t, [])
  {
    var st: Stages := seq(|t.nbrs|, _ => 0);
    forall i: nat, j: nat | i < |st| && j in t.nbrs[i]
      ensures o.Edge(i, j)
    {
      assert o.Edge(j, i);
    }
  }

  /** A node sends to a neighbour when it has heard from all others. */
  lemma OneMoreSent(t: Tree, o: Orientation, st: Stages, log: Log, i: nat, j: nat)
    requires Oriented(t, o) && |st| == |t.nbrs| && Records(t, o, st, log) && AllHeard(t, log)
    requires i < |st| && j in t.nbrs[i] && o.Edge(i, j) && (if o.Child(i, j) then st[i] == 0 else st[j] == 1)
    requires forall m :: m in t.nbrs[i] && m != j ==> o.Edge(m, i) && Sent(o, st, m, i)
    ensures Records(t, o, Passed(o, st, i, j), log + [(i, j)]) && AllHeard(t, log + [(i, j)])
  {
    var log', st' := log + [(i, j)], Passed(o, st, i, j);
    forall k: nat, m: nat | k < |st| && m in t.nbrs[k]
      ensures o.Edge(k, m) && multiset(log')[(k, m)] == if Sent(o, st', k, m) then 1 else 0
    {
      assert o.Edge(k, m);
      SentAfter(t, o, st, i, j, k, m);
      assert multiset(log') == multiset(log) + multiset{(i, j)};
    }
    forall k: nat | k < |log'|
      ensures Heard(t, log', k)
    {
      if k < |log| {
        assert Heard(t, log, k) && log'[..k] == log[..k];
      } else {
        forall m | m in t.nbrs[i] && m != j
          ensures (m, i) in log'[..k]
        {
          InLog(t, o, st, log, m, i);
          assert log'[..k] == log;
        }
      }
    }
  }

  lemma InLog(t: Tree, o: Orientation, st: Stages, log: Log, m: nat, i: nat)
    requires Oriented(t, o) && |st| == |t.nbrs| && Records(t, o, st, log) && o.Edge(m, i) && Sent(o, st, m, i)
    ensures (m, i) in log
  {
    OneWay(t, o, m, i);
    assert i in t.nbrs[m];
    assert multiset(log)[(m, i)] == 1;
  }

  lemma SentAfter(t: Tree, o: Orientation, st: Stages, i: nat, j: nat, k: nat, m: nat)
    requires Oriented(t, o) && |st| == |t.nbrs| && o.Edge(i, j) && o.Edge(k, m)
    requires if o.Child(i, j) then st[i] == 0 else st[j] == 1
    ensures Sent(o, Passed(o, st, i, j), k, m) <==> Sent(o, st, k, m) || (k == i && m == j)
    ensures !Sent(o, st, i, j)
  {
    OneWay(t, o, i, j);
    OneWay(t, o, k, m);
  }

  /** When all messages have been answered, the log has one message for each direction of each edge. */
  lemma EachEdgeBothWays(t: Tree, o: Orientation, st: Stages, log: Log, i: nat, j: nat)
    requires Oriented(t, o) && |st| == |t.nbrs| && Records(t, o, st, log)
    requires forall c :: 0 <= c < |st| && c != o.order[0] ==> st[c] == 2
    ensures multiset(log)[(i, j)] == if i < |t.nbrs| && j in t.nbrs[i] then 1 else 0
  {
    if i < |t.nbrs| && j in t.nbrs[i] {
      assert o.Edge(i, j);
      OneWay(t, o, i, j);
      assert Sent(o, st, i, j);
    } else {
      assert (i, j) !in log;
    }
  }

  /** The messages that may still come. */
  ghost function Left(st: Stages): nat {
    if st == [] then 0 else Left(st[1..]) + if st[0] < 2 then 2 - st[0] else 0
  }

  lemma {:induction false} LeftShrinks(st: Stages, c: nat)
    requires c < |st| && st[c] < 2
    ensures Left(st[c := st[c] + 1]) < Left(st)
  {
    if c > 0 {
      assert st[c := st[c] + 1][1..] == st[1..][c - 1 := st[c] + 1];
      LeftShrinks(st[1..], c - 1);
    } else {
      assert st[c := st[c] + 1][1..] == st[1..];
    }
  }
}
