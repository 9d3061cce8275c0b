/** Decoding a symbol with the tables: both forms of jpeg_decoder::huff_decode. */
module HuffmanDecode {
  import opened Arith
  import opened BitStream
  import opened BitReaders
  import opened CanonicalCode
  import opened HuffmanTrie
  import opened HuffmanCover
  import opened HuffmanTables

  /** A table specification: code lengths, and the symbols in the order of the codes. */
  datatype Spec = Spec(lens: Lengths, vals: seq<byte>) {
    ghost predicate Ok() {
      |lens| <= 255 && |vals| == 256 && Kraft(lens)
    }

    /** One-argument decoding finds the code size by symbol, so symbols must not repeat. */
    ghost predicate Distinct()
      requires Ok()
    {
      forall p, q :: 0 <= p < q < |lens| ==> vals[p] != vals[q]
    }
  }

  datatype Decoded = Decoded(symbol: byte, extra: nat, next: nat)

  /** Some code word is at the beginning of the window. */
  ghost predicate HasCode(lens: Lengths, w: nat) {
    exists p: nat :: Begins(lens, p, w)
  }

  /** Where a window leaves the tree of proper prefixes, from depth d on. */
  ghost function LeavesAt(lens: Lengths, w: nat, d: nat): (e: nat)
    requires d <= 16
    ensures d <= e <= 16
    decreases 16 - d
  {
    if d < 16 && Inner(lens, |lens|, d, Prefix(w, d)) then LeavesAt(lens, w, d + 1) else d
  }

  /** What decoding at bit pos of stream f yields: the symbol of the canonical code word there
      (T.81 Annex C and section F.2.2.3), and the extra bits that the symbol asks for.
      Where no code word is found the tables give symbol 0, after dropping as many bits as it
      took to see it. */
  ghost function DecodeAt(h: Spec, f: nat -> byte, pos: nat): Decoded
    requires h.Ok()
  {
    var w := Window(f, pos, 16);
    if HasCode(h.lens, w) then
      var p: nat :| Begins(h.lens, p, w);
      var n := h.vals[p] % 16;
      Decoded(h.vals[p], Window(f, pos + h.lens[p], n), pos + h.lens[p] + n)
    else
      Decoded(0, 0, pos + if Inner(h.lens, |h.lens|, 8, Prefix(w, 8)) then LeavesAt(h.lens, w, 9) else 0)
  }

  /** The same, given which code word it is: the code is prefix free, so there is no choice. */
  lemma DecodeAtCode(h: Spec, f: nat -> byte, pos: nat, p: nat)
    requires h.Ok() && Begins(h.lens, p, Window(f, pos, 16))
    ensures var n := h.vals[p] % 16;
            DecodeAt(h, f, pos) == Decoded(h.vals[p], Window(f, pos + h.lens[p], n), pos + h.lens[p] + n)
  {
    hide Window, Begins;
    var w := Window(f, pos, 16);
    forall q: nat | Begins(h.lens, q, w)
      ensures q == p
    {
      PrefixFree(h.lens, p, q, w);
    }
  }

  /** The only code word that window w can begin with has n bits and this symbol; if the
      symbol is not 0 there is one. */
  ghost predicate Finds(h: Spec, w: nat, n: nat, symbol: int)
    requires h.Ok()
  {
    && (forall p: nat :: Begins(h.lens, p, w) ==> h.lens[p] == n && h.vals[p] == symbol)
    && (symbol > 0 ==> HasCode(h.lens, w))
  }

  // ---- what the tables say about a window ----

  /** The eight-bit lookup is filled exactly for windows that begin with a short code word. */
  lemma ShortHit(shorts: map<nat, Entry>, h: Spec, w: nat)
    requires h.Ok() && w < 0x1_0000
    requires ShortsAreCodes(shorts, h.lens, |h.lens|) && CodesAreShorts(shorts, h.lens, h.vals, |h.lens|)
    ensures Prefix(w, 8) in shorts ==>
              exists p: nat :: Begins(h.lens, p, w) && shorts[Prefix(w, 8)] == Entry(h.vals[p], h.lens[p])
    ensures Prefix(w, 8) !in shorts ==> forall p: nat :: Begins(h.lens, p, w) ==> h.lens[p] > 8
  {
    hide Start, InShort, Prefix;
    var t := Prefix(w, 8);
    if t in shorts {
      var p: nat :| p < |h.lens| && h.lens[p] <= 8 && InShort(h.lens, p, t);
      ShortIsByte(h.lens, p, w);
      assert shorts[t] == Entry(h.vals[p], h.lens[p]);
    } else {
      forall p: nat | Begins(h.lens, p, w)
        ensures h.lens[p] > 8
      {
        if h.lens[p] <= 8 {
          ShortIsByte(h.lens, p, w);
        }
      }
    }
  }

  /** For a short code word, eight bits tell whether a window begins with it. */
  lemma ShortIsByte(lens: Lengths, p: nat, w: nat)
    requires p < |lens| && lens[p] <= 8
    ensures InShort(lens, p, Prefix(w, 8)) <==> Begins(lens, p, w)
  {
    hide Start, Unit, Prefix, Quotient;
    PrefixEight(w);
    UnitZero();
    StartAligned(lens, p, lens[p]);
    StartAligned(lens, p + 1, lens[p]);
    StartAligned(lens, p, 8);
    StartAligned(lens, p + 1, 8);
    ByteBounds(Start(lens, p), Start(lens, p + 1), w);
  }

  lemma ByteBounds(a: nat, b: nat, w: nat)
    requires a % 256 == 0 && b % 256 == 0
    ensures a <= 256 * Quotient(w, 256) < b <==> a <= w < b
  {
  }

  /** A proper prefix of the window is not itself a code word. */
  lemma InnerExcludes(lens: Lengths, w: nat, d: nat, p: nat)
    requires d <= 16 && Inner(lens, |lens|, d, Prefix(w, d)) && Begins(lens, p, w)
    ensures lens[p] > d
  {
    hide Start, Prefix, Code;
    var q: nat :| q < |lens| && lens[q] > d && Prefix(Start(lens, q), d) == Prefix(w, d);
    if lens[p] <= d {
      BeginsIsPrefix(lens, p, w);
      PrefixPrefix(w, lens[p], d);
      PrefixPrefix(Start(lens, q), lens[p], d);
      InnerIsNoCode(lens, p, q);
    }
  }

  /** A code word of more than d bits makes its first d bits a proper prefix. */
  lemma LongerIsInner(lens: Lengths, w: nat, d: nat, p: nat)
    requires d <= 16 && Begins(lens, p, w) && lens[p] > d
    ensures Inner(lens, |lens|, d, Prefix(w, d))
  {
    hide Start, Prefix;
    BeginsSharesPrefix(lens, p, w, d);
  }

  lemma InnerIsShallow(lens: Lengths, d: nat, x: nat)
    requires d <= 16 && Inner(lens, |lens|, d, x)
    ensures d <= 15
  {
  }

  /** What the tree holds for the first d bits of a window whose first d - 1 bits are a proper
      prefix of some code word. */
  lemma TreePlace(t: Trie, h: Spec, w: nat, d: nat, v: int)
    requires h.Ok() && 8 < d <= 16
    requires CoversNodes(t, h.lens, |h.lens|)
    requires LeavesAreCodes(t.leaves, h.lens, |h.lens|) && CodesAreLeaves(t.leaves, h.lens, h.vals, |h.lens|)
    requires PathNode(w, d - 1) in t.nodes && t.Ok() && t.Holds(v, PathNode(w, d))
    ensures v < 0 <==> PathNode(w, d) in t.nodes
    ensures v < 0 ==> d <= 15 && LeavesAt(h.lens, w, d) == LeavesAt(h.lens, w, d + 1) && t.Refers(v, PathNode(w, d))
    ensures v >= 0 ==> LeavesAt(h.lens, w, d) == d && v < 256 && Finds(h, w, d, v)
  {
    hide Start, Prefix, Code, Inner, CodesAreLeaves, LeavesAreCodes;
    var lens, m := h.lens, PathNode(w, d);
    if m in t.nodes {
      InnerIsShallow(lens, d, m.prefix);
    } else {
      forall p: nat | Begins(lens, p, w)
        ensures lens[p] == d && h.vals[p] == v
      {
        InnerExcludes(lens, w, d - 1, p);
        if lens[p] > d {
          LongerIsInner(lens, w, d, p);
        }
        CodeIsLeaf(t.leaves, h, w, p);
      }
      if m in t.leaves {
        LeafIsCode(t.leaves, h, w, d);
      }
    }
  }

  lemma CodeIsLeaf(leaves: map<Node, byte>, h: Spec, w: nat, p: nat)
    requires h.Ok() && Begins(h.lens, p, w) && h.lens[p] > 8
    requires CodesAreLeaves(leaves, h.lens, h.vals, |h.lens|)
    ensures PathNode(w, h.lens[p]) in leaves && leaves[PathNode(w, h.lens[p])] == h.vals[p]
  {
    hide Start, Prefix, Code;
    BeginsIsPrefix(h.lens, p, w);
  }

  lemma LeafIsCode(leaves: map<Node, byte>, h: Spec, w: nat, d: nat)
    requires h.Ok() && d <= 16 && PathNode(w, d) in leaves
    requires LeavesAreCodes(leaves, h.lens, |h.lens|)
    ensures exists p: nat :: Begins(h.lens, p, w) && h.lens[p] == d
  {
    hide Start, Prefix, Code, Begins;
    var p: nat :| p < |h.lens| && h.lens[p] > 8 && PathNode(w, d) == Node(h.lens[p], Code(h.lens, p));
    BeginsIsPrefix(h.lens, p, w);
  }

  // ---- the bits the tables are indexed with ----

  lemma PeekByte(f: nat -> byte, pos: nat, v: nat)
    requires 16 <= v <= 32
    ensures Buffer(f, pos, v) / 0x100_0000 == Prefix(Window(f, pos, 16), 8)
    ensures Window(f, pos, 16) < 0x1_0000 && Prefix(Window(f, pos, 16), 8) == Window(f, pos, 8) < 256
  {
    hide Window, Pow2, Buffer;
    Pow2Large();
    Pow2Small();
    BufferTop(f, pos, v, 8);
    WindowPrefix(f, pos, 8, 8);
    PrefixEight(Window(f, pos, 16));
  }

  /** (m_bit_buf >> ofs) & 1, for the bit that leads to depth d of the tree. */
  lemma PeekBit(f: nat -> byte, pos: nat, v: nat, d: nat)
    requires 16 <= v <= 32 && 0 < d <= 16
    ensures Buffer(f, pos, v) / Pow2(32 - d) % 2 == Prefix(Window(f, pos, 16), d) % 2
    ensures PathNode(Window(f, pos, 16), d) ==
            Child(PathNode(Window(f, pos, 16), d - 1), Prefix(Window(f, pos, 16), d) % 2)
  {
    hide Window, Pow2, Buffer;
    BufferTop(f, pos, v, d);
    WindowPrefix(f, pos, d, 16 - d);
    PathStep(Window(f, pos, 16), d - 1);
  }

  /** One step of the traversal: the cell for depth d, and what it says. */
  lemma TreeCell(t: HuffTables, h: Spec, w: nat, d: nat, cell: int, bit: nat)
    requires h.Ok() && t.Represents(h.lens, h.vals) && 8 < d <= 16 && bit <= 1
    requires t.trie.Refers(cell, PathNode(w, d - 1)) && PathNode(w, d) == Child(PathNode(w, d - 1), bit)
    ensures 0 <= -(cell + bit) < 512
    ensures var v := t.tree[-(cell + bit)];
            && (v < 0 ==> d <= 15 && LeavesAt(h.lens, w, d) == LeavesAt(h.lens, w, d + 1) && t.trie.Refers(v, PathNode(w, d)))
            && (v >= 0 ==> LeavesAt(h.lens, w, d) == d && v < 256 && Finds(h, w, d, v))
  {
    hide LookUp2, SizesOf, CoversNodes, LeavesAreCodes, CodesAreLeaves, ShortsAreCodes, CodesAreShorts, PathNode;
    hide LeavesAt, Finds, Child;
    var k: nat :| k < |t.trie.nodes| && t.trie.nodes[k] == PathNode(w, d - 1) && cell == -1 - 2 * k;
    assert t.trie.Holds(t.tree[..][2 * k + 1 - bit], Child(t.trie.nodes[k], bit));
    assert PathNode(w, d - 1) in t.trie.nodes;
    TreePlace(t.trie, h, w, d, t.tree[-(cell + bit)]);
  }

  /** The tree traversal: it ends where the window leaves the tree, with the symbol there. */
  method WalkTree(t: HuffTables, bitBuf: nat, entry: int, ghost h: Spec, ghost f: nat -> byte, ghost pos: nat, ghost v: nat)
    returns (symbol: byte, ofs: int)
    requires h.Ok() && t.Represents(h.lens, h.vals)
    requires 16 <= v <= 32 && bitBuf == Buffer(f, pos, v)
    requires t.trie.Refers(entry, PathNode(Window(f, pos, 16), 8))
    ensures var w := Window(f, pos, 16);
            && 8 + (23 - ofs) == LeavesAt(h.lens, w, 9)
            && Finds(h, w, LeavesAt(h.lens, w, 9), symbol)
  {
    hide Window, Pow2, Buffer, Prefix, PathNode, LeavesAt, Finds, Covers, SizesOf;
    ghost var w := Window(f, pos, 16);
    ofs := 23;
    symbol := 0;
    var cell := entry;
    while cell < 0
      invariant 15 <= ofs <= 23 && cell < 256
      invariant cell < 0 ==> 16 <= ofs && t.trie.Refers(cell, PathNode(w, 31 - ofs))
      invariant cell < 0 ==> LeavesAt(h.lens, w, 9) == LeavesAt(h.lens, w, 32 - ofs)
      invariant cell >= 0 ==> LeavesAt(h.lens, w, 9) == 31 - ofs && Finds(h, w, 31 - ofs, cell)
      decreases ofs
    {
      PeekBit(f, pos, v, 32 - ofs);
      var bit := bitBuf / Pow2(ofs) % 2;
      TreeCell(t, h, w, 32 - ofs, cell, bit);
      cell := t.tree[-(cell + bit)];
      ofs := ofs - 1;
    }
    symbol := cell;
  }

  // ---- the two decoders ----

  /** What the eight-bit lookups hold for a window. */
  lemma LookedUp(t: HuffTables, h: Spec, w: nat)
    requires h.Ok() && t.Represents(h.lens, h.vals) && w < 0x1_0000 && Prefix(w, 8) < 256
    ensures var i := Prefix(w, 8); var v, v2 := t.lookUp[i], t.lookUp2[i];
            if v < 0 || v2 < 0 then
              && v2 == v && t.trie.Refers(v, PathNode(w, 8))
              && Inner(h.lens, |h.lens|, 8, i)
            else
              && !Inner(h.lens, |h.lens|, 8, i)
              && if HasCode(h.lens, w)
                 then exists p: nat :: Begins(h.lens, p, w) && h.lens[p] <= 8 && v == h.vals[p]
                                       && v2 == LookUp2(h.vals[p], h.lens[p], i)
                 else v == v2 == 0
  {
    hide LookUp2, SizesOf, CoversNodes, LeavesAreCodes, CodesAreLeaves, ShortsAreCodes, CodesAreShorts, Begins, Prefix, Inner;
    var i := Prefix(w, 8);
    assert t.trie.LookHolds(t.shorts, i, t.lookUp[..][i], t.lookUp2[..][i]);
    ShortHit(t.shorts, h, w);
    RootIsInner(t.trie, h.lens, i);
    if HasCode(h.lens, w) {
      var p: nat :| Begins(h.lens, p, w);
      CodeOrInner(h.lens, w, p);
    }
  }

  lemma RootIsInner(t: Trie, lens: Lengths, i: nat)
    requires CoversNodes(t, lens, |lens|)
    ensures Node(8, i) in t.nodes <==> Inner(lens, |lens|, 8, i)
  {
    hide Inner;
  }

  /** A code word is either short, or its first eight bits are a proper prefix; not both. */
  lemma CodeOrInner(lens: Lengths, w: nat, p: nat)
    requires Begins(lens, p, w)
    ensures lens[p] > 8 <==> Inner(lens, |lens|, 8, Prefix(w, 8))
  {
    hide Start, Prefix, Inner;
    if lens[p] > 8 {
      LongerIsInner(lens, w, 8, p);
    } else if Inner(lens, |lens|, 8, Prefix(w, 8)) {
      InnerExcludes(lens, w, 8, p);
    }
  }

  /** The code size of a symbol, where symbols do not repeat. */
  lemma SizeOfSymbol(sizes: seq<int>, h: Spec, i: byte)
    requires h.Ok() && h.Distinct() && |sizes| == 256 && SizesOf(sizes, h.lens, h.vals, |h.lens|)
    ensures 0 <= sizes[i] <= 16
    ensures forall p: nat :: p < |h.lens| && h.vals[p] == i ==> sizes[i] == h.lens[p]
    ensures sizes[i] == SizeOf(h, i)
  {
    if p: nat :| p < |h.lens| && h.vals[p] == i {
      assert forall q: nat :: p < q < |h.lens| ==> h.vals[q] != h.vals[p];
    }
  }

  /** What one-argument decoding yields: a symbol and the position behind its code word. Where no
      code word is found the symbol is 0, and as many bits are dropped as it took to see that in
      the tree; if eight bits were enough to see it, the code size of symbol 0 is dropped. */
  ghost function SymbolAt(h: Spec, f: nat -> byte, pos: nat): (r: (byte, nat))
    requires h.Ok()
    ensures r.1 >= pos
  {
    var w := Window(f, pos, 16);
    if HasCode(h.lens, w) then
      var p: nat :| Begins(h.lens, p, w);
      (h.vals[p], pos + h.lens[p])
    else
      (0, pos + if Inner(h.lens, |h.lens|, 8, Prefix(w, 8)) then LeavesAt(h.lens, w, 9) else SizeOf(h, 0))
  }

  /** The code size of a symbol, 0 if it has no code word. */
  ghost function SizeOf(h: Spec, i: byte): nat
    requires h.Ok()
  {
    if exists p: nat :: p < |h.lens| && h.vals[p] == i then
      var p: nat :| p < |h.lens| && h.vals[p] == i;
      h.lens[p]
    else 0
  }

  lemma SymbolAtCode(h: Spec, f: nat -> byte, pos: nat, p: nat)
    requires h.Ok() && Begins(h.lens, p, Window(f, pos, 16))
    ensures SymbolAt(h, f, pos) == (h.vals[p], pos + h.lens[p])
  {
    hide Window, Begins;
    UniqueCode(h.lens, Window(f, pos, 16));
  }

  lemma SymbolAtNoCode(h: Spec, f: nat -> byte, pos: nat)
    requires h.Ok() && !HasCode(h.lens, Window(f, pos, 16))
    ensures var w := Window(f, pos, 16);
            SymbolAt(h, f, pos) ==
            (0, pos + if Inner(h.lens, |h.lens|, 8, Prefix(w, 8)) then LeavesAt(h.lens, w, 9) else SizeOf(h, 0))
  {
    hide Window, Prefix, Inner, LeavesAt, SizeOf, HasCode;
  }

  /** One-argument huff_decode: the symbol of the code word at the current position. */
  method HuffDecode(r: BitReader, t: HuffTables, ghost h: Spec) returns (symbol: byte)
    requires h.Ok() && h.Distinct() && t.Represents(h.lens, h.vals) && r.InEntropySegment()
    modifies r
    ensures r.InEntropySegment() && r.octets == old(r.octets) && r.source == old(r.source)
    ensures var w := Window(r.octets, old(r.Position()), 16);
            && (forall p: nat :: Begins(h.lens, p, w) ==>
                 symbol == h.vals[p] && r.Position() == old(r.Position()) + h.lens[p])
            && SymbolAt(h, r.octets, old(r.Position())) == (symbol, r.Position())
  {
    hide Window, Pow2, Buffer, Prefix, Inner, Covers, SizesOf, LookUp2, PathNode, Begins, Entropy, SymbolAt, SizeOf, LeavesAt;
    ghost var f, pos, v := r.octets, r.Position(), 16 + r.bitsLeft;
    ghost var w := Window(f, pos, 16);
    PeekByte(f, pos, v);
    LookedUp(t, h, w);
    var entry := t.lookUp[r.bitBuf / 0x100_0000];
    if entry < 0 {
      var ofs;
      symbol, ofs := WalkTree(t, r.bitBuf, entry, h, f, pos, v);
      var _ := r.GetBitsNoMarkers(8 + (23 - ofs));
      UseFinds(h, w, 8 + (23 - ofs), symbol);
      SymbolMeaning(h, f, pos);
    } else {
      SymbolMeaning(h, f, pos);
      symbol := entry;
      SizeOfSymbol(t.codeSize[..], h, symbol);
      UniqueCode(h.lens, w);
      var _ := r.GetBitsNoMarkers(t.codeSize[symbol]);
    }
  }

  lemma SymbolMeaning(h: Spec, f: nat -> byte, pos: nat)
    requires h.Ok()
    ensures var w := Window(f, pos, 16);
            && (forall p: nat :: Begins(h.lens, p, w) ==> p < |h.lens| && SymbolAt(h, f, pos) == (h.vals[p], pos + h.lens[p]))
            && (!HasCode(h.lens, w) ==>
                 SymbolAt(h, f, pos) ==
                 (0, pos + if Inner(h.lens, |h.lens|, 8, Prefix(w, 8)) then LeavesAt(h.lens, w, 9) else SizeOf(h, 0)))
  {
    hide SymbolAt, Begins, Window, Prefix;
    var w := Window(f, pos, 16);
    UniqueCode(h.lens, w);
    forall p: nat | Begins(h.lens, p, w)
      ensures SymbolAt(h, f, pos) == (h.vals[p], pos + h.lens[p])
    {
      SymbolAtCode(h, f, pos, p);
    }
    if !HasCode(h.lens, w) {
      SymbolAtNoCode(h, f, pos);
    }
  }

  lemma UseFinds(h: Spec, w: nat, n: nat, symbol: int)
    requires h.Ok() && Finds(h, w, n, symbol)
    ensures forall p: nat :: Begins(h.lens, p, w) ==> p < |h.lens| && h.lens[p] == n && h.vals[p] == symbol
    ensures symbol > 0 ==> HasCode(h.lens, w)
  {
  }

  lemma UniqueCode(lens: Lengths, w: nat)
    ensures forall p: nat, q: nat :: Begins(lens, p, w) && Begins(lens, q, w) ==> p == q
    ensures forall p: nat :: Begins(lens, p, w) ==> p < |lens| && HasCode(lens, w)
  {
    hide Start;
    forall p: nat, q: nat | Begins(lens, p, w) && Begins(lens, q, w)
      ensures p == q
    {
      PrefixFree(lens, p, q, w);
    }
  }

  /** The fields of a look_up2 entry. */
  lemma LookUp2Fields(symbol: byte, size: nat, f: nat -> byte, pos: nat)
    requires 1 <= size <= 8
    ensures var v, n := LookUp2(symbol, size, Window(f, pos, 8)), symbol % 16;
            && v % 256 == symbol && v % 16 == n && v / 256 % 32 <= 8
            && if v / 0x8000 % 2 == 1
               then v / 256 % 32 == size + n && v / 0x1_0000 == Window(f, pos + size, n)
               else v / 256 % 32 == size
  {
    hide Window, Pow2, WithExtra, WithoutExtra;
    var n := symbol % 16;
    if n != 0 && size + n <= 8 {
      WindowPrefix(f, pos, size + n, 8 - (size + n));
      WindowPrefix(f, pos, size, n);
      FieldsOf(symbol, size + n, Window(f, pos + size, n));
    } else {
      FieldsOf(symbol, size, 0);
    }
  }

  lemma FieldsOf(symbol: byte, bits: nat, extra: nat)
    requires bits <= 8
    ensures var v := WithExtra(symbol, bits, extra);
            v % 256 == symbol && v % 16 == symbol % 16 && v / 0x8000 % 2 == 1 && v / 256 % 32 == bits && v / 0x1_0000 == extra
    ensures var v := WithoutExtra(symbol, bits);
            v % 256 == symbol && v % 16 == symbol % 16 && v / 0x8000 % 2 == 0 && v / 256 % 32 == bits
  {
    var v := symbol as int + 0x8000 + extra * 0x1_0000 + bits * 256;
    DivModUnique(v, 256, bits + 128 + 256 * extra, symbol);
    DivModUnique(bits + 128 + 256 * extra, 32, 4 + 8 * extra, bits);
    DivModUnique(v, 0x8000, 1 + 2 * extra, symbol as int + bits * 256);
    DivModUnique(v, 0x1_0000, extra, symbol as int + bits * 256 + 0x8000);
    DivModUnique(v, 16, symbol / 16 + 16 * (bits + 128 + 256 * extra), symbol % 16);
    var u := symbol as int + bits * 256;
    DivModUnique(u, 256, bits, symbol);
    DivModUnique(u, 16, symbol / 16 + 16 * bits, symbol % 16);
  }

  /** Two-argument huff_decode: the symbol and the extra bits it asks for. */
  method HuffDecode2(r: BitReader, t: HuffTables, ghost h: Spec) returns (symbol: byte, extraBits: nat)
    requires h.Ok() && t.Represents(h.lens, h.vals) && r.InEntropySegment()
    modifies r
    ensures r.InEntropySegment() && r.octets == old(r.octets) && r.source == old(r.source)
    ensures DecodeAt(h, r.octets, old(r.Position())) == Decoded(symbol, extraBits, r.Position())
  {
    hide Window, Pow2, Buffer, Prefix, Inner, Covers, SizesOf, LookUp2, PathNode, Begins, Entropy, DecodeAt;
    ghost var f, pos, v := r.octets, r.Position(), 16 + r.bitsLeft;
    ghost var w := Window(f, pos, 16);
    PeekByte(f, pos, v);
    LookedUp(t, h, w);
    var entry := t.lookUp2[r.bitBuf / 0x100_0000];
    if entry < 0 {
      var ofs;
      symbol, ofs := WalkTree(t, r.bitBuf, entry, h, f, pos, v);
      var _ := r.GetBitsNoMarkers(8 + (23 - ofs));
      extraBits := r.GetBitsNoMarkers(symbol % 16);
      TreeOutcome(h, f, pos, symbol);
    } else {
      LookUpOutcome(h, f, pos, t.lookUp[r.bitBuf / 0x100_0000], entry);
      if entry / 0x8000 % 2 == 1 {
        var _ := r.GetBitsNoMarkers(entry / 256 % 32);
        extraBits := entry / 0x1_0000;
      } else {
        var codeSize := entry / 256 % 32;
        var numExtraBits := entry % 16;
        var bits := codeSize + numExtraBits;
        if bits <= r.bitsLeft + 16 {
          WindowPrefix(f, pos, codeSize, numExtraBits);
          extraBits := r.GetBitsNoMarkers(bits);
          extraBits := extraBits % Pow2(numExtraBits);
        } else {
          var _ := r.GetBitsNoMarkers(codeSize);
          extraBits := r.GetBitsNoMarkers(numExtraBits);
        }
      }
      symbol := entry % 256;
    }
  }

  /** The outcome of a traversal of the tree. */
  lemma TreeOutcome(h: Spec, f: nat -> byte, pos: nat, symbol: byte)
    requires h.Ok()
    requires var w := Window(f, pos, 16);
             Inner(h.lens, |h.lens|, 8, Prefix(w, 8)) && Finds(h, w, LeavesAt(h.lens, w, 9), symbol)
    ensures var d, n := LeavesAt(h.lens, Window(f, pos, 16), 9), symbol % 16;
            DecodeAt(h, f, pos) == Decoded(symbol, Window(f, pos + d, n), pos + d + n)
  {
    hide Window, Prefix, Inner, LeavesAt, Begins;
    var w := Window(f, pos, 16);
    UniqueCode(h.lens, w);
    if p: nat :| Begins(h.lens, p, w) {
      DecodeAtCode(h, f, pos, p);
    } else {
      WindowNone(f, pos + LeavesAt(h.lens, w, 9));
    }
  }

  /** The outcome of a look_up2 entry. */
  lemma LookUpOutcome(h: Spec, f: nat -> byte, pos: nat, v: int, v2: int)
    requires h.Ok()
    requires var w := Window(f, pos, 16);
             && Prefix(w, 8) == Window(f, pos, 8)
             && !Inner(h.lens, |h.lens|, 8, Prefix(w, 8))
             && if HasCode(h.lens, w)
                then exists p: nat :: Begins(h.lens, p, w) && h.lens[p] <= 8 && v == h.vals[p]
                                      && v2 == LookUp2(h.vals[p], h.lens[p], Prefix(w, 8))
                else v == v2 == 0
    ensures v2 >= 0
    ensures var size, n := if v2 / 0x8000 % 2 == 1 then v2 / 256 % 32 - v2 % 16 else v2 / 256 % 32, v2 % 16;
            && 0 <= size <= 8 && v2 / 256 % 32 <= 8
            && (v2 / 0x8000 % 2 == 1 ==> v2 / 0x1_0000 == Window(f, pos + size, n))
            && DecodeAt(h, f, pos) == Decoded(v2 % 256, Window(f, pos + size, n), pos + size + n)
  {
    hide Window, Prefix, Inner, LeavesAt, Begins, LookUp2;
    var w := Window(f, pos, 16);
    UniqueCode(h.lens, w);
    if HasCode(h.lens, w) {
      var p: nat :| Begins(h.lens, p, w) && h.lens[p] <= 8 && v == h.vals[p] && v2 == LookUp2(h.vals[p], h.lens[p], Prefix(w, 8));
      LookUp2Fields(h.vals[p], h.lens[p], f, pos);
      DecodeAtCode(h, f, pos, p);
    } else {
      WindowNone(f, pos);
    }
  }

  /** Both forms agree: one-argument decoding and then reading the extra bits of the symbol
      gives what two-argument decoding gives, wherever a code word begins. */
  method DecodeThenRead(r: BitReader, t: HuffTables, ghost h: Spec) returns (symbol: byte, extraBits: nat)
    requires h.Ok() && h.Distinct() && t.Represents(h.lens, h.vals) && r.InEntropySegment()
    modifies r
    ensures r.InEntropySegment() && r.octets == old(r.octets) && r.source == old(r.source)
    ensures HasCode(h.lens, Window(r.octets, old(r.Position()), 16)) ==>
              DecodeAt(h, r.octets, old(r.Position())) == Decoded(symbol, extraBits, r.Position())
  {
    hide Window, Buffer, Prefix, Begins, Entropy, DecodeAt;
    ghost var f, pos := r.octets, r.Position();
    symbol := HuffDecode(r, t, h);
    extraBits := r.GetBitsNoMarkers(symbol % 16);
    if p: nat :| Begins(h.lens, p, Window(f, pos, 16)) {
      UniqueCode(h.lens, Window(f, pos, 16));
      DecodeAtCode(h, f, pos, p);
    }
  }
}
