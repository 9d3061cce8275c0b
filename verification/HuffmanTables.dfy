/** Building the decoding tables: jpeg_decoder::make_huff_table. */
module HuffmanTables {
  import opened Arith
  import opened CanonicalCode
  import opened TreeSize
  import opened HuffmanTrie
  import opened HuffmanCover

  lemma GrowStep(t0: Trie, t: Trie, s: nat, d: nat, size: nat)
    requires 8 <= d < size <= 16 && Grown(t0, t, s, d) && PathClear(t0, s, size)
    ensures var n := PathNode(s, d);
            && (n in t.nodes <==> s % Unit(d) != 0)
            && n !in t.leaves
            && Grown(t0, if n in t.nodes then t else t.Add(n), s, d + 1)
  {
    hide Unit, Prefix;
    var n := PathNode(s, d);
    assert !OnPath(n, s, d);
    assert forall m :: OnPath(m, s, d + 1) <==> OnPath(m, s, d) || m == n;
  }

  /** One entry of look_up2, computed as the source does. */
  method LookUp2Entry(symbol: byte, size: nat, c: nat) returns (v: int)
    requires 1 <= size <= 8
    ensures v == LookUp2(symbol, size, c)
  {
    var hasExtraBits, extraBits := false, 0;
    var numExtraBits: int := symbol % 16;
    var bitsToFetch := size;
    if numExtraBits != 0 {
      var totalCodeSize := size + numExtraBits;
      if totalCodeSize <= 8 {
        hasExtraBits := true;
        extraBits := c / Pow2(8 - totalCodeSize) % Pow2(numExtraBits);
        bitsToFetch := bitsToFetch + numExtraBits;
      }
    }
    if !hasExtraBits {
      v := symbol as int + bitsToFetch * 256;
    } else {
      v := symbol as int + 0x8000 + extraBits * 0x1_0000 + bitsToFetch * 256;
    }
  }

  /** The lengths of the code words, num[l] of each length l up to n. */
  function LengthsOf(num: seq<byte>, n: nat): (lens: Lengths)
    requires n < |num| && n <= 16
    ensures forall p :: 0 <= p < |lens| ==> lens[p] <= n
  {
    if n == 0 then [] else LengthsOf(num, n - 1) + seq(num[n], _ => n)
  }

  /** There are as many code words of each length as the counts say; and they are in ascending order, as
      Lengths always are. */
  lemma {:induction false} LengthsCount(num: seq<byte>, n: nat, l: nat)
    requires n < |num| && n <= 16 && 1 <= l <= n
    ensures multiset(LengthsOf(num, n))[l] == num[l]
  {
    var last := seq(num[n], _ => n);
    assert LengthsOf(num, n) == LengthsOf(num, n - 1) + last;
    AllAlike(num[n], n);
    if l < n {
      LengthsCount(num, n - 1, l);
    } else {
      assert n !in LengthsOf(num, n - 1);
    }
  }

  lemma {:induction false} AllAlike(k: nat, x: nat)
    ensures var s := seq(k, _ => x); multiset(s)[x] == k && forall y :: y != x ==> multiset(s)[y] == 0
  {
    if k > 0 {
      AllAlike(k - 1, x);
      assert seq(k, _ => x) == seq(k - 1, _ => x) + [x];
    }
  }

  /** The code size of a symbol is that of the last of the first n code words that has it. */
  ghost predicate SizesOf(sizes: seq<int>, lens: Lengths, vals: seq<byte>, n: nat)
    requires n <= |lens| <= |vals| && |sizes| == 256
  {
    && (forall p: nat :: p < n && (forall q: nat :: p < q < n ==> vals[q] != vals[p]) ==> sizes[vals[p]] == lens[p])
    && forall i :: 0 <= i < 256 && (forall p: nat :: p < n ==> vals[p] != i) ==> sizes[i] == 0
  }

  /** The loop that lists the size of each code word, and a zero after the last. */
  method CodeSizes(num: seq<byte>) returns (huffsize: array<nat>, lastp: nat)
    requires |num| == 17 && |LengthsOf(num, 16)| <= 255
    ensures fresh(huffsize) && huffsize.Length == 257 && lastp == |LengthsOf(num, 16)|
    ensures forall q: nat :: q < lastp ==> huffsize[q] == LengthsOf(num, 16)[q]
    ensures huffsize[lastp] == 0
  {
    huffsize := new nat[257];
    var p := 0;
    var l := 1;
    while l <= 16
      invariant 1 <= l <= 17
      invariant p == |LengthsOf(num, l - 1)| && p <= 255
      invariant huffsize[..p] == LengthsOf(num, l - 1)
    {
      LengthsPrefix(num, l, 16);
      var i := 1;
      ghost var p0 := p;
      while i <= num[l]
        invariant 1 <= i <= num[l] as int + 1
        invariant p == p0 + i - 1 && p0 == |LengthsOf(num, l - 1)|
        invariant huffsize[..p] == LengthsOf(num, l - 1) + seq(i - 1, _ => l)
      {
        huffsize[p] := l;
        p := p + 1;
        i := i + 1;
      }
      l := l + 1;
    }
    assert forall q: nat :: q < p ==> huffsize[..p][q] == huffsize[q];
    huffsize[p] := 0;
    lastp := p;
  }

  lemma {:induction false} LengthsPrefix(num: seq<byte>, m: nat, n: nat)
    requires m <= n < |num| && n <= 16
    ensures LengthsOf(num, m) <= LengthsOf(num, n)
  {
    if m < n {
      LengthsPrefix(num, m, n - 1);
    }
  }

  /** The loop of T.81 Annex C, figure C.2: it gives each code word in turn. */
  method CodeWords(huffsize: array<nat>, lastp: nat, ghost lens: Lengths) returns (huffcode: array<nat>)
    requires huffsize.Length == 257 && lastp == |lens| <= 255 && Kraft(lens)
    requires (forall q: nat :: q < lastp ==> huffsize[q] == lens[q]) && huffsize[lastp] == 0
    ensures fresh(huffcode) && huffcode.Length == 257
    ensures forall p: nat :: p < lastp ==> huffcode[p] == Code(lens, p)
  {
    hide Unit, Start, Code;
    StartAtZero(lens);
    huffcode := new nat[257];
    var code := 0;
    var si := huffsize[0];
    var p := 0;
    while huffsize[p] != 0
      invariant p <= lastp && si <= 17 && (lastp > 0 ==> 1 <= si)
      invariant p < lastp ==> si <= lens[p]
      invariant p > 0 ==> lens[p - 1] < si
      invariant si <= 16 ==> code * Unit(si) == Start(lens, p)
      invariant forall q: nat :: q < p ==> huffcode[q] == Code(lens, q)
      decreases 17 - si
    {
      while huffsize[p] == si
        invariant p <= lastp && 1 <= si <= 16
        invariant p < lastp ==> si <= lens[p]
        invariant p > 0 ==> lens[p - 1] <= si
        invariant code * Unit(si) == Start(lens, p)
        invariant forall q: nat :: q < p ==> huffcode[q] == Code(lens, q)
        decreases lastp - p
      {
        CountUp(lens, p, code);
        huffcode[p] := code;
        p := p + 1;
        code := code + 1;
      }
      if si < 16 {
        UnitDouble(si + 1);
        MulAssoc(code, 2, Unit(si + 1));
      }
      code := code * 2;
      si := si + 1;
    }
  }

  lemma StartAtZero(lens: Lengths)
    ensures Start(lens, 0) == 0
  {
  }

  lemma CountUp(lens: Lengths, p: nat, code: nat)
    requires p < |lens| && code * Unit(lens[p]) == Start(lens, p)
    ensures code == Code(lens, p)
    ensures (code + 1) * Unit(lens[p]) == Start(lens, p + 1)
  {
    hide Unit;
    DivExact(code, Unit(lens[p]));
  }

  /** Room for the path of one more code word. */
  lemma {:induction false} NodeCountGrows(lens: Lengths, p: nat, q: nat)
    requires p <= q <= |lens|
    ensures NodeCount(lens, p) <= NodeCount(lens, q)
  {
    hide Start, NewNodes;
    if p < q {
      NodeCountGrows(lens, p, q - 1);
    }
  }

  lemma NodeCountStep(lens: Lengths, p: nat)
    requires p < |lens|
    ensures NodeCount(lens, p + 1) == NodeCount(lens, p) + NewNodes(Start(lens, p), lens[p])
    ensures NodeCount(lens, p + 1) <= NodeCount(lens, |lens|)
  {
    hide Start;
    NodeCountGrows(lens, p + 1, |lens|);
  }

  lemma SizesOfNothing(sizes: seq<int>, lens: Lengths, vals: seq<byte>)
    requires |lens| <= |vals| && |sizes| == 256 && forall i :: 0 <= i < 256 ==> sizes[i] == 0
    ensures SizesOf(sizes, lens, vals, 0)
  {
  }

  lemma SizesStep(sizes: seq<int>, lens: Lengths, vals: seq<byte>, p: nat)
    requires p < |lens| <= |vals| && |sizes| == 256 && SizesOf(sizes, lens, vals, p)
    ensures SizesOf(sizes[vals[p] := lens[p]], lens, vals, p + 1)
  {
    var sizes' := sizes[vals[p] := lens[p]];
    forall q: nat | q < p + 1 && (forall r: nat :: q < r < p + 1 ==> vals[r] != vals[q])
      ensures sizes'[vals[q]] == lens[q]
    {
      if q < p {
        assert vals[p] != vals[q];
        assert forall r: nat :: q < r < p ==> vals[r] != vals[q];
      }
    }
    forall i | 0 <= i < 256 && (forall q: nat :: q < p + 1 ==> vals[q] != i)
      ensures sizes'[i] == 0
    {
      assert vals[p] != i;
      assert forall q: nat :: q < p ==> vals[q] != i;
    }
  }

  class HuffTables {
    const lookUp: array<int>
    const lookUp2: array<int>
    const codeSize: array<int>
    const tree: array<int>

    var nextFree: int
    ghost var trie: Trie                 // what is in tree
    ghost var shorts: map<nat, Entry>    // the eight-bit words that begin with a short code word

    ghost function Repr(): set<object> {
      {lookUp, lookUp2, codeSize, tree}
    }

    ghost predicate Shapes() {
      && lookUp.Length == lookUp2.Length == codeSize.Length == 256 && tree.Length == 512
      && lookUp != lookUp2 && lookUp != codeSize && lookUp != tree
      && lookUp2 != codeSize && lookUp2 != tree && codeSize != tree
    }

    ghost predicate Valid()
      reads this, Repr()
    {
      && Shapes()
      && trie.Ok() && nextFree == -1 - 2 * |trie.nodes|
      && trie.Stored(tree[..])
      && trie.Looks(shorts, lookUp[..], lookUp2[..])
    }

    /** The tables of a finished code. */
    ghost predicate Represents(lens: Lengths, vals: seq<byte>)
      requires |lens| <= |vals|
      reads this, Repr()
    {
      Valid() && Covers(trie, shorts, lens, vals, |lens|) && SizesOf(codeSize[..], lens, vals, |lens|)
    }

    constructor ()
      ensures Shapes() && fresh(Repr())
    {
      lookUp := new int[256];
      lookUp2 := new int[256];
      codeSize := new int[256];
      tree := new int[512];
      nextFree := -1;
      trie, shorts := Trie([], map[]), map[];
    }

    method Clear()
      requires Shapes()
      modifies this, Repr()
      ensures Valid() && trie == Trie([], map[]) && shorts == map[]
      ensures forall i :: 0 <= i < 256 ==> codeSize[i] == 0
    {
      forall i | 0 <= i < 256 {
        lookUp[i] := 0;
      }
      forall i | 0 <= i < 256 {
        lookUp2[i] := 0;
      }
      forall i | 0 <= i < 512 {
        tree[i] := 0;
      }
      forall i | 0 <= i < 256 {
        codeSize[i] := 0;
      }
      nextFree := -1;
      trie, shorts := Trie([], map[]), map[];
    }

    /** The entry of the root for the eight-bit word i, which is made if it is not there yet. */
    method RootEntry(i: nat) returns (entry: int)
      requires Valid() && i < 256 && i !in shorts
      requires Node(8, i) in trie.nodes || |trie.nodes| < 256
      modifies this`trie, this`nextFree, lookUp, lookUp2
      ensures Valid()
      ensures trie == if Node(8, i) in old(trie).nodes then old(trie) else old(trie).Add(Node(8, i))
      ensures trie.Refers(entry, Node(8, i))
    {
      hide LookUp2;
      ghost var n := Node(8, i);
      assert trie.LookHolds(shorts, i, lookUp[..][i], lookUp2[..][i]);
      entry := lookUp[i];
      if entry == 0 {
        AddRoot(trie, tree[..], n);
        LooksAddRoot(trie, i, nextFree, shorts, lookUp[..], lookUp2[..]);
        trie := trie.Add(n);
        lookUp[i] := nextFree;
        entry := nextFree;
        lookUp2[i] := nextFree;
        entry := nextFree;
        nextFree := nextFree - 2;
      }
    }

    /** The entry for the child of node k, which is made if it is not there yet. */
    method ChildEntry(ghost k: nat, ghost bit: nat, c: nat) returns (entry: int)
      requires Valid() && k < |trie.nodes| && bit <= 1 && c == 2 * k + 1 - bit
      requires Child(trie.nodes[k], bit) !in trie.leaves
      requires Child(trie.nodes[k], bit) in trie.nodes || |trie.nodes| < 256
      modifies this`trie, this`nextFree, tree
      ensures Valid()
      ensures var n := Child(old(trie).nodes[k], bit);
              && trie == (if n in old(trie).nodes then old(trie) else old(trie).Add(n))
              && trie.Refers(entry, n)
    {
      hide LookUp2;
      ghost var n := Child(trie.nodes[k], bit);
      assert trie.Holds(tree[..][2 * k + 1 - bit], n);
      if tree[c] == 0 {
        AddChild(trie, tree[..], k, bit);
        LooksGrow(trie, n, shorts, lookUp[..], lookUp2[..]);
        trie := trie.Add(n);
        tree[c] := nextFree;
        entry := nextFree;
        nextFree := nextFree - 2;
      } else {
        entry := tree[c];
      }
    }

    /** Stores a symbol below node k. */
    method StoreSymbol(ghost k: nat, ghost bit: nat, c: nat, symbol: byte)
      requires Valid() && k < |trie.nodes| && bit <= 1 && c == 2 * k + 1 - bit
      requires Child(trie.nodes[k], bit) !in trie.nodes
      modifies this`trie, tree
      ensures Valid()
      ensures trie == old(trie).AddLeaf(Child(old(trie).nodes[k], bit), symbol)
    {
      hide LookUp2;
      ghost var n := Child(trie.nodes[k], bit);
      AddSymbol(trie, tree[..], k, bit, symbol);
      LooksAddLeaf(trie, n, symbol, shorts, lookUp[..], lookUp2[..]);
      trie := trie.AddLeaf(n, symbol);
      tree[c] := symbol;
    }

    /** Builds the tables for num[l] code words of each length l, with the symbols vals. */
    method MakeHuffTable(num: seq<byte>, vals: seq<byte>)
      requires Shapes() && |num| == 17 && |vals| == 256
      requires |LengthsOf(num, 16)| <= 255 && Kraft(LengthsOf(num, 16))
      requires NodeCount(LengthsOf(num, 16), |LengthsOf(num, 16)|) <= 256
      modifies this, Repr()
      ensures Represents(LengthsOf(num, 16), vals)
    {
      hide Covers, SizesOf, Kraft, Start, Code, LengthsOf, Valid, NewNodes;
      ghost var lens := LengthsOf(num, 16);
      var huffsize, lastp := CodeSizes(num);
      var huffcode := CodeWords(huffsize, lastp, lens);
      Clear();
      CoversNothing(lens, vals);
      SizesOfNothing(codeSize[..], lens, vals);
      var p := 0;
      while p < lastp
        invariant p <= lastp
        invariant forall q: nat :: q < lastp ==> huffsize[q] == lens[q] && huffcode[q] == Code(lens, q)
        invariant Valid() && Covers(trie, shorts, lens, vals, p)
        invariant |trie.nodes| == NodeCount(lens, p)
        invariant SizesOf(codeSize[..], lens, vals, p)
      {
        InsertCode(huffcode[p], huffsize[p], vals[p], lens, vals, p);
        p := p + 1;
      }
    }

    /** One turn of the loop over the code words. */
    method InsertCode(code: nat, size: nat, i: byte, ghost lens: Lengths, ghost vals: seq<byte>, ghost p: nat)
      requires p < |lens| <= 255 && |vals| == 256 && Kraft(lens)
      requires code == Code(lens, p) && size == lens[p] && i == vals[p]
      requires NodeCount(lens, |lens|) <= 256
      requires Valid() && Covers(trie, shorts, lens, vals, p)
      requires |trie.nodes| == NodeCount(lens, p)
      requires SizesOf(codeSize[..], lens, vals, p)
      modifies this, Repr()
      ensures Valid() && Covers(trie, shorts, lens, vals, p + 1)
      ensures |trie.nodes| == NodeCount(lens, p + 1)
      ensures SizesOf(codeSize[..], lens, vals, p + 1)
    {
      hide Covers, SizesOf, NodeCount, Kraft, Start, Code, Unit, InShort, Pow2, Prefix;
      SizesStep(codeSize[..], lens, vals, p);
      codeSize[i] := size;
      NodeCountStep(lens, p);
      if size <= 8 {
        ghost var shorts0 := shorts;
        ShortReady(trie, shorts, lens, vals, p);
        InsertShort(code, size, i, code * Pow2(8 - size));
        CoverShort(trie, shorts0, shorts, lens, vals, p);
      } else {
        ghost var t0 := trie;
        LongReady(trie, shorts, lens, vals, p);
        InsertLong(code, size, i, Start(lens, p));
        ghost var t :| Grown(t0, t, Start(lens, p), size) && trie == t.AddLeaf(PathNode(Start(lens, p), size), i);
        CoverLong(t0, t, shorts, lens, vals, p);
      }
    }

    /** Puts a code word of at most eight bits into the lookups. Its interval begins at 256 * first. */
    method InsertShort(code: nat, size: nat, symbol: byte, ghost first: nat)
      requires Valid() && 1 <= size <= 8
      requires first == code * Pow2(8 - size) && first + Pow2(8 - size) <= 256
      requires forall t :: first <= t < first + Pow2(8 - size) ==> Node(8, t) !in trie.nodes
      modifies this`shorts, lookUp, lookUp2
      ensures Valid()
      ensures forall t :: t in shorts <==> t in old(shorts) || first <= t < first + Pow2(8 - size)
      ensures forall t :: t in shorts ==>
                shorts[t] == if first <= t < first + Pow2(8 - size) then Entry(symbol, size) else old(shorts)[t]
    {
      hide Pow2, LookUp2;
      var c := code * Pow2(8 - size);
      var l := Pow2(8 - size);
      while l > 0
        invariant 0 <= l <= Pow2(8 - size) && c == first + Pow2(8 - size) - l
        invariant Valid()
        invariant forall t :: t in shorts <==> t in old(shorts) || first <= t < c
        invariant forall t :: t in shorts ==>
                    shorts[t] == if first <= t < c then Entry(symbol, size) else old(shorts)[t]
      {
        LooksAddShort(trie, c, Entry(symbol, size), shorts, lookUp[..], lookUp2[..]);
        lookUp[c] := symbol;
        lookUp2[c] := LookUp2Entry(symbol, size, c);
        shorts := shorts[c := Entry(symbol, size)];
        c := c + 1;
        l := l - 1;
      }
    }

    /** Puts a code word of more than eight bits into the tree. Its interval begins at s. */
    method InsertLong(code: nat, size: nat, symbol: byte, ghost s: nat)
      requires Valid() && 8 < size <= 16 && s == code * Unit(size) && s < 0x1_0000
      requires Prefix(s, 8) !in shorts
      requires PathClear(trie, s, size)
      requires |trie.nodes| + NewNodes(s, size) <= 256
      modifies this`trie, this`nextFree, lookUp, lookUp2, tree
      ensures Valid()
      ensures exists t :: Grown(old(trie), t, s, size) && trie == t.AddLeaf(PathNode(s, size), symbol)
    {
      hide Pow2, Unit, Prefix, LookUp2, Grown, PathClear, PathNode;
      ghost var t0 := trie;
      RootReady(t0, code, size, s);
      var subtree := code / Pow2(size - 8) % 256;
      var entry := RootEntry(subtree);
      var shifted := code * Pow2(24 - size);
      ghost var d := 8;
      var l := size;
      while l > 9
        invariant d == 8 + size - l && 9 <= l <= size
        invariant Valid()
        invariant shifted == s * Pow2(d)
        invariant trie.Refers(entry, PathNode(s, d))
        invariant Grown(t0, trie, s, d + 1)
      {
        entry := Descend(entry, shifted, t0, s, d, size);
        Pow2Double(d);
        MulDouble(s, Pow2(d), Pow2(d + 1));
        shifted := shifted * 2;
        d := d + 1;
        l := l - 1;
      }
      PlaceSymbol(entry, shifted, t0, s, d, symbol);
    }

    /** The cell for the last bit of a code word. */
    method PlaceSymbol(entry: int, shifted: nat, ghost t0: Trie, ghost s: nat, ghost d: nat, symbol: byte)
      requires Valid() && 8 <= d < 16
      requires shifted == s * Pow2(d) && trie.Refers(entry, PathNode(s, d))
      requires Grown(t0, trie, s, d + 1) && PathClear(t0, s, d + 1)
      modifies this`trie, tree
      ensures Valid()
      ensures trie == old(trie).AddLeaf(PathNode(s, d + 1), symbol)
    {
      hide Pow2, Unit, Prefix, LookUp2, PathClear, PathNode, Child, Grown;
      PathStep(s, d);
      ghost var k: nat :| k < |trie.nodes| && trie.nodes[k] == PathNode(s, d) && entry == -1 - 2 * k;
      LeafIsNew(t0, trie, s, d + 1);
      var last := entry;
      if shifted / 0x8000 % 2 == 0 {
        last := last - 1;
      }
      StoreSymbol(k, Prefix(s, d + 1) % 2, -last - 1, symbol);
    }

    /** One turn of the loop over the levels of the tree. */
    method Descend(entry: int, shifted: nat, ghost t0: Trie, ghost s: nat, ghost d: nat, ghost size: nat)
      returns (next: int)
      requires Valid() && 8 <= d < size - 1 && size <= 16
      requires shifted == s * Pow2(d) && trie.Refers(entry, PathNode(s, d))
      requires Grown(t0, trie, s, d + 1) && PathClear(t0, s, size)
      requires |t0.nodes| + NewNodes(s, size) <= 256
      modifies this`trie, this`nextFree, tree
      ensures Valid()
      ensures trie.Refers(next, PathNode(s, d + 1))
      ensures Grown(t0, trie, s, d + 2)
    {
      hide Pow2, Unit, Prefix, LookUp2, PathClear, PathNode, Child;
      PathStep(s, d);
      NewNodesGrow(s, d + 2, size);
      GrowStep(t0, trie, s, d + 1, size);
      ghost var k: nat :| k < |trie.nodes| && trie.nodes[k] == PathNode(s, d) && entry == -1 - 2 * k;
      next := entry;
      if shifted / 0x8000 % 2 == 0 {
        next := next - 1;
      }
      next := ChildEntry(k, Prefix(s, d + 1) % 2, -next - 1);
    }
  }

  lemma RootReady(t: Trie, code: nat, size: nat, s: nat)
    requires 8 < size <= 16 && s == code * Unit(size) && s < 0x1_0000
    requires PathClear(t, s, size)
    ensures code / Pow2(size - 8) % 256 == Prefix(s, 8)
    ensures code * Pow2(24 - size) == s * Pow2(8)
    ensures 0 < NewNodes(s, size) || Node(8, Prefix(s, 8)) in t.nodes
    ensures var n := Node(8, Prefix(s, 8));
            PathNode(s, 8) == n && Grown(t, if n in t.nodes then t else t.Add(n), s, 9)
  {
    hide Pow2, Unit, Prefix;
    CodeInWindow(code, size, s);
    assert forall m :: !OnPath(m, s, 8);
    GrowStep(t, t, s, 8, size);
    NewNodesGrow(s, 9, size);
  }

  lemma LeafIsNew(t0: Trie, t: Trie, s: nat, size: nat)
    requires 8 < size <= 16 && Grown(t0, t, s, size) && PathClear(t0, s, size)
    ensures PathNode(s, size) !in t.nodes
  {
    assert !OnPath(PathNode(s, size), s, size);
  }

  lemma CodeInWindow(code: nat, size: nat, s: nat)
    requires 8 < size <= 16 && s == code * Unit(size) && s < 0x1_0000
    ensures code / Pow2(size - 8) % 256 == Prefix(s, 8)
    ensures code * Pow2(24 - size) == s * Pow2(8)
  {
    hide Pow2;
    Pow2Small();
    Pow2Add(size - 8, 16 - size);
    Pow2Add(16 - size, 8);
    CancelFactor(code, Pow2(size - 8), Unit(size), 256);
    MulAssoc(code, Pow2(16 - size), Pow2(8));
  }

  lemma {:induction false} NewNodesGrow(s: nat, a: nat, b: nat)
    requires a <= b <= 16
    ensures NewNodes(s, a) <= NewNodes(s, b)
  {
    if a < b {
      NewNodesGrow(s, a, b - 1);
    }
  }
}