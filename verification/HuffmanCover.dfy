/** How one more code word changes what the tables cover. */
module HuffmanCover {
  import opened Arith
  import opened CanonicalCode
  import opened TreeSize
  import opened HuffmanTrie

  /** The eight-bit word i begins with the short code word p. */
  ghost predicate InShort(lens: Lengths, p: nat, i: nat)
    requires p < |lens|
  {
    Start(lens, p) <= 256 * i < Start(lens, p + 1)
  }

  /** The tree holds exactly the proper prefixes, of eight bits or more, of the first n code words. */
  ghost predicate CoversNodes(t: Trie, lens: Lengths, n: nat)
    requires n <= |lens|
  {
    forall m :: m in t.nodes <==> m.depth >= 8 && Inner(lens, n, m.depth, m.prefix)
  }

  /** Every leaf is one of the first n code words. */
  ghost predicate LeavesAreCodes(leaves: map<Node, byte>, lens: Lengths, n: nat)
    requires n <= |lens|
  {
    forall m :: m in leaves ==> exists p: nat :: p < n && lens[p] > 8 && m == Node(lens[p], Code(lens, p))
  }

  /** Every long one of the first n code words is a leaf with its symbol. */
  ghost predicate CodesAreLeaves(leaves: map<Node, byte>, lens: Lengths, vals: seq<byte>, n: nat)
    requires n <= |lens| <= |vals|
  {
    forall p: nat :: p < n && lens[p] > 8 ==>
      var m := Node(lens[p], Code(lens, p)); m in leaves && leaves[m] == vals[p]
  }

  /** Every lookup that is filled is so for one of the first n code words. */
  ghost predicate ShortsAreCodes(shorts: map<nat, Entry>, lens: Lengths, n: nat)
    requires n <= |lens|
  {
    forall i :: i in shorts ==> exists p: nat :: p < n && lens[p] <= 8 && InShort(lens, p, i)
  }

  /** The lookups are filled for every short one of the first n code words. */
  ghost predicate CodesAreShorts(shorts: map<nat, Entry>, lens: Lengths, vals: seq<byte>, n: nat)
    requires n <= |lens| <= |vals|
  {
    forall p: nat, i: nat :: p < n && lens[p] <= 8 && InShort(lens, p, i) ==>
      i in shorts && shorts[i] == Entry(vals[p], lens[p])
  }

  ghost predicate Covers(t: Trie, shorts: map<nat, Entry>, lens: Lengths, vals: seq<byte>, n: nat)
    requires n <= |lens| <= |vals|
  {
    && CoversNodes(t, lens, n) && LeavesAreCodes(t.leaves, lens, n) && CodesAreLeaves(t.leaves, lens, vals, n)
    && ShortsAreCodes(shorts, lens, n) && CodesAreShorts(shorts, lens, vals, n)
  }

  /** Trie t is t0 with the path of window s down to depth d - 1. */
  ghost predicate Grown(t0: Trie, t: Trie, s: nat, d: nat)
    requires d <= 16
  {
    && t.leaves == t0.leaves
    && |t.nodes| == |t0.nodes| + NewNodes(s, d)
    && forall m :: m in t.nodes <==> m in t0.nodes || OnPath(m, s, d)
  }

  /** Exactly the nodes that the starts of intervals tell are there, and none of the leaves
      are in the way. */
  ghost predicate PathClear(t: Trie, s: nat, size: nat)
    requires size <= 16
  {
    && PathNode(s, size) !in t.nodes
    && forall d: nat :: 8 <= d < size ==>
         PathNode(s, d) !in t.leaves && (PathNode(s, d) in t.nodes <==> s % Unit(d) != 0)
  }

  lemma CoversNothing(lens: Lengths, vals: seq<byte>)
    requires |lens| <= |vals|
    ensures Covers(Trie([], map[]), map[], lens, vals, 0)
  {
  }

  // ---- a long code word ----

  /** The path of the next code word is clear of earlier ones. */
  lemma LongIsClear(t: Trie, lens: Lengths, p: nat)
    requires p < |lens| && lens[p] > 8
    requires CoversNodes(t, lens, p) && LeavesAreCodes(t.leaves, lens, p)
    ensures PathClear(t, Start(lens, p), lens[p])
  {
    hide Unit, Start, Code, Prefix;
    var s, size := Start(lens, p), lens[p];
    assert !Inner(lens, p, size, Prefix(s, size));
    forall d: nat | 8 <= d < size
      ensures PathNode(s, d) !in t.leaves && (PathNode(s, d) in t.nodes <==> s % Unit(d) != 0)
    {
      SeenPrefix(lens, p, d);
      if PathNode(s, d) in t.leaves {
        var q: nat :| q < p && lens[q] > 8 && PathNode(s, d) == Node(lens[q], Code(lens, q));
        InnerIsNoCode(lens, q, p);
      }
    }
  }

  lemma LongIsNotShort(shorts: map<nat, Entry>, lens: Lengths, p: nat)
    requires p < |lens| && ShortsAreCodes(shorts, lens, p)
    ensures Prefix(Start(lens, p), 8) !in shorts
  {
    hide Unit, Start, Quotient, Prefix;
    PrefixEight(Start(lens, p));
    var i := Prefix(Start(lens, p), 8);
    if i in shorts {
      var q: nat :| q < p && lens[q] <= 8 && InShort(lens, q, i);
      StartMonotone(lens, q + 1, p);
      StartAligned(lens, q + 1, 8);
      UnitZero();
      FloorBound(Start(lens, q + 1), Start(lens, p));
    }
  }

  lemma PrefixEight(s: nat)
    ensures Prefix(s, 8) == Quotient(s, 256)
  {
    hide Quotient, Pow2;
    UnitZero();
  }

  lemma FloorBound(a: nat, s: nat)
    requires a <= s && a % 256 == 0
    ensures a <= 256 * Quotient(s, 256)
  {
  }

  lemma InnerGrows(lens: Lengths, p: nat, d: nat, x: nat)
    requires p < |lens| && d <= 16
    ensures Inner(lens, p + 1, d, x) <==> Inner(lens, p, d, x) || (lens[p] > d && Prefix(Start(lens, p), d) == x)
  {
    hide Start, Prefix;
  }

  lemma CodesDiffer(lens: Lengths, q: nat, p: nat)
    requires q < p < |lens|
    ensures Node(lens[q], Code(lens, q)) != Node(lens[p], Code(lens, p))
  {
    hide Unit, Start, Code;
    StartMonotone(lens, q, p);
    CodeStart(lens, q);
    CodeStart(lens, p);
  }

  lemma CoverLong(t0: Trie, t: Trie, shorts: map<nat, Entry>, lens: Lengths, vals: seq<byte>, p: nat)
    requires p < |lens| <= |vals| && lens[p] > 8
    requires Covers(t0, shorts, lens, vals, p)
    requires Grown(t0, t, Start(lens, p), lens[p])
    ensures Covers(t.AddLeaf(PathNode(Start(lens, p), lens[p]), vals[p]), shorts, lens, vals, p + 1)
  {
    hide CoversNodes, LeavesAreCodes, CodesAreLeaves, ShortsAreCodes, CodesAreShorts, Start, PathNode;
    CoverLongNodes(t0, t, lens, p);
    LeavesStayCodes(t.leaves, lens, vals[p], p);
    CodesStayLeaves(t.leaves, lens, vals, p);
    ShortsStay(shorts, lens, vals, p);
    LeavesApart(t, PathNode(Start(lens, p), lens[p]), vals[p], lens, p + 1);
  }

  lemma LeavesApart(t: Trie, n: Node, symbol: byte, lens: Lengths, k: nat)
    requires k <= |lens| && CoversNodes(t, lens, k)
    ensures CoversNodes(t.AddLeaf(n, symbol), lens, k)
  {
  }

  lemma CoverLongNodes(t0: Trie, t: Trie, lens: Lengths, p: nat)
    requires p < |lens| && lens[p] > 8
    requires CoversNodes(t0, lens, p) && Grown(t0, t, Start(lens, p), lens[p])
    ensures CoversNodes(t, lens, p + 1)
  {
    hide Start, Prefix, Inner, NewNodes;
    forall m: Node
      ensures m in t.nodes <==> m.depth >= 8 && Inner(lens, p + 1, m.depth, m.prefix)
    {
      if m.depth <= 16 {
        InnerGrows(lens, p, m.depth, m.prefix);
      } else {
        NoDeepInner(lens, p, m);
        NoDeepInner(lens, p + 1, m);
      }
    }
  }

  lemma NoDeepInner(lens: Lengths, n: nat, m: Node)
    requires m.depth > 16
    ensures !Inner(lens, n, m.depth, m.prefix)
  {
  }

  lemma CodePlace(lens: Lengths, p: nat)
    requires p < |lens|
    ensures PathNode(Start(lens, p), lens[p]) == Node(lens[p], Code(lens, p))
  {
  }

  lemma LeavesStayCodes(leaves: map<Node, byte>, lens: Lengths, symbol: byte, p: nat)
    requires p < |lens| && lens[p] > 8 && LeavesAreCodes(leaves, lens, p)
    ensures LeavesAreCodes(leaves[PathNode(Start(lens, p), lens[p]) := symbol], lens, p + 1)
  {
    var n := PathNode(Start(lens, p), lens[p]);
    var leaves' := leaves[n := symbol];
    CodePlace(lens, p);
    hide Start, Code, Prefix, PathNode;
    forall m | m in leaves'
      ensures exists q: nat :: q < p + 1 && lens[q] > 8 && m == Node(lens[q], Code(lens, q))
    {
      if m != n {
        var q: nat :| q < p && lens[q] > 8 && m == Node(lens[q], Code(lens, q));
      }
    }
  }

  lemma CodesStayLeaves(leaves: map<Node, byte>, lens: Lengths, vals: seq<byte>, p: nat)
    requires p < |lens| <= |vals| && lens[p] > 8 && CodesAreLeaves(leaves, lens, vals, p)
    ensures CodesAreLeaves(leaves[PathNode(Start(lens, p), lens[p]) := vals[p]], lens, vals, p + 1)
  {
    var n := PathNode(Start(lens, p), lens[p]);
    var leaves' := leaves[n := vals[p]];
    CodePlace(lens, p);
    hide Start, Code, Prefix, PathNode;
    forall q: nat | q < p + 1 && lens[q] > 8
      ensures var m := Node(lens[q], Code(lens, q)); m in leaves' && leaves'[m] == vals[q]
    {
      if q < p {
        CodesDiffer(lens, q, p);
      }
    }
  }

  lemma ShortsStay(shorts: map<nat, Entry>, lens: Lengths, vals: seq<byte>, p: nat)
    requires p < |lens| <= |vals| && lens[p] > 8
    requires ShortsAreCodes(shorts, lens, p) && CodesAreShorts(shorts, lens, vals, p)
    ensures ShortsAreCodes(shorts, lens, p + 1) && CodesAreShorts(shorts, lens, vals, p + 1)
  {
    hide InShort;
    forall i | i in shorts
      ensures exists q: nat :: q < p + 1 && lens[q] <= 8 && InShort(lens, q, i)
    {
      var q: nat :| q < p && lens[q] <= 8 && InShort(lens, q, i);
    }
  }

  // ---- a short code word ----

  /** The eight-bit words of a short code word. */
  lemma ShortRange(lens: Lengths, p: nat)
    requires p < |lens| && lens[p] <= 8 && Kraft(lens)
    ensures var first := Code(lens, p) * Pow2(8 - lens[p]);
            && first + Pow2(8 - lens[p]) <= 256
            && forall i: nat :: InShort(lens, p, i) <==> first <= i < first + Pow2(8 - lens[p])
  {
    hide Unit, Start, Code, Pow2;
    var c, k := Code(lens, p), Pow2(8 - lens[p]);
    CodeStart(lens, p);
    CodeFits(lens, p);
    UnitSplit(lens[p], 8);
    UnitZero();
    MulAssoc(c, k, 256);
    MulAssoc(c + 1, k, 256);
    assert (c + 1) * k == c * k + k;
  }

  lemma NoNodesYet(t: Trie, lens: Lengths, p: nat)
    requires p < |lens| && lens[p] <= 8 && CoversNodes(t, lens, p)
    ensures t.nodes == [] && CoversNodes(t, lens, p + 1)
  {
    hide Start, Prefix, Inner;
    forall m: Node
      ensures m !in t.nodes && !(m.depth >= 8 && Inner(lens, p + 1, m.depth, m.prefix))
    {
      if m.depth >= 8 {
        NoInner(lens, p, m);
      }
    }
    if t.nodes != [] {
      HasMember(t.nodes);
    }
  }

  lemma HasMember(s: seq<Node>)
    requires s != []
    ensures exists m :: m in s
  {
    assert s[0] in s;
  }

  lemma NoInner(lens: Lengths, p: nat, m: Node)
    requires p < |lens| && lens[p] <= 8 && m.depth >= 8
    ensures !Inner(lens, p, m.depth, m.prefix) && !Inner(lens, p + 1, m.depth, m.prefix)
  {
    hide Start, Prefix;
  }

  lemma NoLeavesYet(leaves: map<Node, byte>, lens: Lengths, vals: seq<byte>, p: nat)
    requires p < |lens| <= |vals| && lens[p] <= 8 && LeavesAreCodes(leaves, lens, p)
    ensures LeavesAreCodes(leaves, lens, p + 1) && CodesAreLeaves(leaves, lens, vals, p + 1)
  {
    hide Start, Code;
    assert forall m: Node :: m !in leaves;
  }

  lemma ShortsStayCodes(shorts0: map<nat, Entry>, shorts: map<nat, Entry>, lens: Lengths, p: nat)
    requires p < |lens| && lens[p] <= 8 && ShortsAreCodes(shorts0, lens, p)
    requires forall i: nat :: i in shorts <==> i in shorts0 || InShort(lens, p, i)
    ensures ShortsAreCodes(shorts, lens, p + 1)
  {
    hide InShort;
    forall i | i in shorts
      ensures exists q: nat :: q < p + 1 && lens[q] <= 8 && InShort(lens, q, i)
    {
      if !InShort(lens, p, i) {
        var q: nat :| q < p && lens[q] <= 8 && InShort(lens, q, i);
      }
    }
  }

  lemma CodesStayShorts(shorts0: map<nat, Entry>, shorts: map<nat, Entry>, lens: Lengths, vals: seq<byte>, p: nat)
    requires p < |lens| <= |vals| && lens[p] <= 8 && CodesAreShorts(shorts0, lens, vals, p)
    requires forall i: nat :: i in shorts <==> i in shorts0 || InShort(lens, p, i)
    requires forall i: nat :: i in shorts ==>
               shorts[i] == if InShort(lens, p, i) then Entry(vals[p], lens[p]) else shorts0[i]
    ensures CodesAreShorts(shorts, lens, vals, p + 1)
  {
    hide InShort;
    forall q: nat, i: nat | q < p + 1 && lens[q] <= 8 && InShort(lens, q, i)
      ensures i in shorts && shorts[i] == Entry(vals[q], lens[q])
    {
      if q < p {
        ShortsApart(lens, q, p, i);
      }
    }
  }

  lemma ShortsApart(lens: Lengths, q: nat, p: nat, i: nat)
    requires q < p < |lens| && InShort(lens, q, i)
    ensures !InShort(lens, p, i)
  {
    hide Start;
    StartMonotone(lens, q + 1, p);
  }

  /** The lookups of the next code word, a short one, are still free. */
  lemma ShortReady(t: Trie, shorts: map<nat, Entry>, lens: Lengths, vals: seq<byte>, p: nat)
    requires p < |lens| <= |vals| && lens[p] <= 8 && Kraft(lens)
    requires Covers(t, shorts, lens, vals, p)
    ensures t.nodes == []
    ensures var first := Code(lens, p) * Pow2(8 - lens[p]);
            && first + Pow2(8 - lens[p]) <= 256
            && forall i: nat :: InShort(lens, p, i) <==> first <= i < first + Pow2(8 - lens[p])
  {
    hide Kraft, InShort, Code, Start;
    NoNodesYet(t, lens, p);
    ShortRange(lens, p);
  }

  lemma CoverShort(t: Trie, shorts0: map<nat, Entry>, shorts: map<nat, Entry>, lens: Lengths, vals: seq<byte>, p: nat)
    requires p < |lens| <= |vals| && lens[p] <= 8
    requires Covers(t, shorts0, lens, vals, p)
    requires forall i: nat :: i in shorts <==> i in shorts0 || InShort(lens, p, i)
    requires forall i: nat :: i in shorts ==>
               shorts[i] == if InShort(lens, p, i) then Entry(vals[p], lens[p]) else shorts0[i]
    ensures Covers(t, shorts, lens, vals, p + 1)
  {
    hide CoversNodes, LeavesAreCodes, CodesAreLeaves, ShortsAreCodes, CodesAreShorts, InShort;
    NoNodesYet(t, lens, p);
    NoLeavesYet(t.leaves, lens, vals, p);
    ShortsStayCodes(shorts0, shorts, lens, p);
    CodesStayShorts(shorts0, shorts, lens, vals, p);
  }

  /** The path of the next code word, a long one, is clear. */
  lemma LongReady(t: Trie, shorts: map<nat, Entry>, lens: Lengths, vals: seq<byte>, p: nat)
    requires p < |lens| <= |vals| && lens[p] > 8 && Kraft(lens)
    requires Covers(t, shorts, lens, vals, p)
    ensures PathClear(t, Start(lens, p), lens[p])
    ensures Prefix(Start(lens, p), 8) !in shorts
    ensures Start(lens, p) == Code(lens, p) * Unit(lens[p]) && Start(lens, p) < 0x1_0000
  {
    hide CoversNodes, LeavesAreCodes, CodesAreLeaves, ShortsAreCodes, CodesAreShorts, Start, PathClear, Prefix, Kraft, Code, Unit;
    LongIsClear(t, lens, p);
    LongIsNotShort(shorts, lens, p);
    CodeStart(lens, p);
    CodeFits(lens, p);
    StartMonotone(lens, p, p + 1);
  }
}
