/** What the overflow tree of the Huffman tables means, apart from how it is stored.

    Entries of the array are negative for nodes: node k is written -1 - 2 * k, and its children
    are at 2 * k for bit 1 and at 2 * k + 1 for bit 0. Other entries are symbols. */
module HuffmanTrie {
  import opened Arith
  import opened CanonicalCode

  /** A word of depth bits, as a place in the tree. */
  datatype Node = Node(depth: nat, prefix: nat)

  datatype Entry = Entry(symbol: byte, size: nat)

  function Child(n: Node, bit: nat): Node {
    Node(n.depth + 1, 2 * n.prefix + bit)
  }

  function Parent(n: Node): Node {
    Node(if n.depth > 0 then n.depth - 1 else 0, n.prefix / 2)
  }

  /** The place of the first d bits of window s. */
  function PathNode(s: nat, d: nat): Node
    requires d <= 16
  {
    Node(d, Prefix(s, d))
  }

  /** A two-argument lookup entry with the extra bits of the symbol. Its fields do not overlap,
      so "|" is "+". */
  function WithExtra(symbol: byte, bits: nat, extra: nat): nat {
    symbol as nat + 0x8000 + extra * 0x1_0000 + bits * 256
  }

  function WithoutExtra(symbol: byte, bits: nat): nat {
    symbol as nat + bits * 256
  }

  /** The two-argument lookup entry of the eight-bit word t: the symbol, the number of bits to
      drop, and the extra bits of the symbol where they too are among the eight looked up. */
  function LookUp2(symbol: byte, size: nat, t: nat): nat
    requires size <= 8
  {
    var extra := symbol % 16;
    if extra != 0 && size + extra <= 8
    then WithExtra(symbol, size + extra, t / Pow2(8 - (size + extra)) % Pow2(extra))
    else WithoutExtra(symbol, size)
  }

  /** The nodes of the tree in the order of the array, and the code words that end in it. */
  datatype Trie = Trie(nodes: seq<Node>, leaves: map<Node, byte>) {

    ghost predicate Ok() {
      && |nodes| <= 256
      && (forall i, j :: 0 <= i < j < |nodes| ==> nodes[i] != nodes[j])
      && (forall n :: n in nodes ==> n.depth >= 8 && (n.depth > 8 ==> Parent(n) in nodes))
      && (forall n :: n in leaves ==> n !in nodes && n.depth > 8 && Parent(n) in nodes)
    }

    /** The entry v refers to node n. */
    ghost predicate Refers(v: int, n: Node) {
      exists k :: 0 <= k < |nodes| && nodes[k] == n && v == -1 - 2 * k
    }

    /** The entry v is the right one for the place n. */
    ghost predicate Holds(v: int, n: Node) {
      if n in leaves then v == leaves[n]
      else if n in nodes then Refers(v, n)
      else v == 0
    }

    ghost predicate Stored(tree: seq<int>) {
      && |tree| == 512
      && (forall k, bit :: 0 <= k < |nodes| && 0 <= bit <= 1 && 2 * k + 1 < 512 ==>
            Holds(tree[2 * k + 1 - bit], Child(nodes[k], bit)))
      && forall c :: 2 * |nodes| <= c < 512 ==> tree[c] == 0
    }

    /** The eight-bit lookups agree with the tree, and with the short code words in shorts. */
    ghost predicate Looks(shorts: map<nat, Entry>, lookUp: seq<int>, lookUp2: seq<int>) {
      && |lookUp| == |lookUp2| == 256
      && (forall t :: t in shorts ==> t < 256 && Node(8, t) !in nodes && shorts[t].size <= 8)
      && forall t :: 0 <= t < 256 ==> LookHolds(shorts, t, lookUp[t], lookUp2[t])
    }

    ghost predicate LookHolds(shorts: map<nat, Entry>, t: nat, v: int, v2: int) {
      if t in shorts then
        v == shorts[t].symbol && (shorts[t].size <= 8 ==> v2 == LookUp2(shorts[t].symbol, shorts[t].size, t))
      else if Node(8, t) in nodes then
        Refers(v, Node(8, t)) && v2 == v
      else
        v == v2 == 0
    }

    function Add(n: Node): Trie {
      this.(nodes := nodes + [n])
    }

    function AddLeaf(n: Node, symbol: byte): Trie {
      this.(leaves := leaves[n := symbol])
    }
  }

  lemma RefersGrows(t: Trie, n: Node, v: int, m: Node)
    requires t.Refers(v, m)
    ensures t.Add(n).Refers(v, m)
  {
    var k :| 0 <= k < |t.nodes| && t.nodes[k] == m && v == -1 - 2 * k;
    assert t.Add(n).nodes[k] == m;
  }

  /** Distinct nodes have distinct children. */
  lemma ChildParent(n: Node, bit: nat)
    requires bit <= 1
    ensures Parent(Child(n, bit)) == n
  {
  }

  /** A root of the tree: no cell of the array has to change. */
  lemma AddRoot(t: Trie, tree: seq<int>, n: Node)
    requires t.Ok() && t.Stored(tree) && |t.nodes| < 256
    requires n !in t.nodes && n !in t.leaves && n.depth == 8
    ensures t.Add(n).Ok() && t.Add(n).Stored(tree)
    ensures t.Add(n).Refers(-1 - 2 * |t.nodes|, n)
  {
    var t' := t.Add(n);
    assert t'.nodes[|t.nodes|] == n;
    NewNodeIsOk(t, n);
    forall k, bit | 0 <= k < |t'.nodes| && 0 <= bit <= 1 && 2 * k + 1 < 512
      ensures t'.Holds(tree[2 * k + 1 - bit], Child(t'.nodes[k], bit))
    {
      NewCell(t, tree, n, k, bit);
    }
  }

  lemma NewNodeIsOk(t: Trie, n: Node)
    requires t.Ok() && |t.nodes| < 256
    requires n !in t.nodes && n !in t.leaves && n.depth >= 8 && (n.depth > 8 ==> Parent(n) in t.nodes)
    ensures t.Add(n).Ok()
  {
  }

  /** The cells that a new node leaves alone are still right. */
  lemma NewCell(t: Trie, tree: seq<int>, n: Node, k: nat, bit: nat)
    requires t.Ok() && t.Stored(tree) && |t.nodes| < 256
    requires n !in t.nodes && n !in t.leaves && n.depth >= 8 && (n.depth > 8 ==> Parent(n) in t.nodes)
    requires k <= |t.nodes| && bit <= 1 && Child(t.Add(n).nodes[k], bit) != n
    ensures t.Add(n).Holds(tree[2 * k + 1 - bit], Child(t.Add(n).nodes[k], bit))
  {
    var m := Child(t.Add(n).nodes[k], bit);
    ChildParent(t.Add(n).nodes[k], bit);
    if k < |t.nodes| {
      assert t.Holds(tree[2 * k + 1 - bit], Child(t.nodes[k], bit));
      if m !in t.leaves && m in t.nodes {
        RefersGrows(t, n, tree[2 * k + 1 - bit], m);
      }
    } else {
      assert m !in t.nodes && m !in t.leaves;
      assert 2 * |t.nodes| <= 2 * k + 1 - bit < 512;
    }
  }

  /** A node below node k: the cell for it has to refer to it. */
  lemma AddChild(t: Trie, tree: seq<int>, k: nat, bit: nat)
    requires t.Ok() && t.Stored(tree) && |t.nodes| < 256 && k < |t.nodes| && bit <= 1
    requires Child(t.nodes[k], bit) !in t.nodes && Child(t.nodes[k], bit) !in t.leaves
    ensures var t' := t.Add(Child(t.nodes[k], bit));
            && t'.Ok() && t'.Stored(tree[2 * k + 1 - bit := -1 - 2 * |t.nodes|])
            && t'.Refers(-1 - 2 * |t.nodes|, Child(t.nodes[k], bit))
  {
    var n := Child(t.nodes[k], bit);
    var t' := t.Add(n);
    var tree' := tree[2 * k + 1 - bit := -1 - 2 * |t.nodes|];
    ChildParent(t.nodes[k], bit);
    assert t'.nodes[|t.nodes|] == n;
    NewNodeIsOk(t, n);
    forall j, b | 0 <= j < |t'.nodes| && 0 <= b <= 1 && 2 * j + 1 < 512
      ensures t'.Holds(tree'[2 * j + 1 - b], Child(t'.nodes[j], b))
    {
      ChildParent(t'.nodes[j], b);
      if j != k || b != bit {
        NewCell(t, tree, n, j, b);
      }
    }
  }

  /** A symbol below node k. */
  lemma AddSymbol(t: Trie, tree: seq<int>, k: nat, bit: nat, symbol: byte)
    requires t.Ok() && t.Stored(tree) && k < |t.nodes| && bit <= 1
    requires Child(t.nodes[k], bit) !in t.nodes
    ensures var t' := t.AddLeaf(Child(t.nodes[k], bit), symbol);
            t'.Ok() && t'.Stored(tree[2 * k + 1 - bit := symbol])
  {
    var n := Child(t.nodes[k], bit);
    var t' := t.AddLeaf(n, symbol);
    var tree' := tree[2 * k + 1 - bit := symbol];
    ChildParent(t.nodes[k], bit);
    forall j, b | 0 <= j < |t'.nodes| && 0 <= b <= 1 && 2 * j + 1 < 512
      ensures t'.Holds(tree'[2 * j + 1 - b], Child(t'.nodes[j], b))
    {
      ChildParent(t'.nodes[j], b);
      assert t.Holds(tree[2 * j + 1 - b], Child(t.nodes[j], b));
    }
  }

  /** Growing the tree below the roots leaves the lookups right. */
  lemma LooksGrow(t: Trie, n: Node, shorts: map<nat, Entry>, lookUp: seq<int>, lookUp2: seq<int>)
    requires t.Looks(shorts, lookUp, lookUp2) && n.depth > 8
    ensures t.Add(n).Looks(shorts, lookUp, lookUp2)
  {
    forall i | 0 <= i < 256
      ensures t.Add(n).LookHolds(shorts, i, lookUp[i], lookUp2[i])
    {
      assert t.LookHolds(shorts, i, lookUp[i], lookUp2[i]);
      if i !in shorts && Node(8, i) in t.nodes {
        RefersGrows(t, n, lookUp[i], Node(8, i));
      }
    }
  }

  lemma LooksAddRoot(t: Trie, i: nat, v: int, shorts: map<nat, Entry>, lookUp: seq<int>, lookUp2: seq<int>)
    requires t.Looks(shorts, lookUp, lookUp2) && i < 256 && i !in shorts
    requires t.Add(Node(8, i)).Refers(v, Node(8, i))
    ensures t.Add(Node(8, i)).Looks(shorts, lookUp[i := v], lookUp2[i := v])
  {
    var n := Node(8, i);
    var lookUp', lookUp2' := lookUp[i := v], lookUp2[i := v];
    forall j | 0 <= j < 256
      ensures t.Add(n).LookHolds(shorts, j, lookUp'[j], lookUp2'[j])
    {
      assert t.LookHolds(shorts, j, lookUp[j], lookUp2[j]);
      if j != i && j !in shorts && Node(8, j) in t.nodes {
        RefersGrows(t, n, lookUp[j], Node(8, j));
      }
    }
  }

  /** The nodes on the way to the first d bits of window s. */
  ghost predicate OnPath(m: Node, s: nat, d: nat)
    requires d <= 16
  {
    8 <= m.depth < d && m == PathNode(s, m.depth)
  }

  /** One step down the path of window s, taken from the shifted code word as the source does:
      code << (16 - (code_size - 8)), doubled once a level, and tested against 0x8000. */
  lemma PathStep(s: nat, d: nat)
    requires d < 16
    ensures s * Pow2(d) / 0x8000 == Prefix(s, d + 1)
    ensures PathNode(s, d + 1) == Child(PathNode(s, d), Prefix(s, d + 1) % 2)
  {
    hide Pow2;
    Pow2Add(15 - d, d);
    Pow2Small();
    CancelFactor(s, Unit(d + 1), Pow2(d), 0x8000);
    PrefixPrefix(s, d, d + 1);
  }

  lemma LooksAddLeaf(t: Trie, n: Node, symbol: byte, shorts: map<nat, Entry>, lookUp: seq<int>, lookUp2: seq<int>)
    requires t.Looks(shorts, lookUp, lookUp2)
    ensures t.AddLeaf(n, symbol).Looks(shorts, lookUp, lookUp2)
  {
    forall i | 0 <= i < 256
      ensures t.AddLeaf(n, symbol).LookHolds(shorts, i, lookUp[i], lookUp2[i])
    {
      assert t.LookHolds(shorts, i, lookUp[i], lookUp2[i]);
    }
  }

  lemma LooksAddShort(t: Trie, i: nat, e: Entry, shorts: map<nat, Entry>, lookUp: seq<int>, lookUp2: seq<int>)
    requires t.Looks(shorts, lookUp, lookUp2) && i < 256 && e.size <= 8
    requires Node(8, i) !in t.nodes
    ensures t.Looks(shorts[i := e], lookUp[i := e.symbol], lookUp2[i := LookUp2(e.symbol, e.size, i)])
  {
    hide LookUp2;
    var shorts' := shorts[i := e];
    var lookUp', lookUp2' := lookUp[i := e.symbol], lookUp2[i := LookUp2(e.symbol, e.size, i)];
    forall j | 0 <= j < 256
      ensures t.LookHolds(shorts', j, lookUp'[j], lookUp2'[j])
    {
      assert t.LookHolds(shorts, j, lookUp[j], lookUp2[j]);
    }
  }
}
