/** How many nodes the overflow tree of a Huffman table needs. */
module TreeSize {
  import opened Arith
  import opened CanonicalCode

  /** Of the nodes on the path of a code word of d bits whose interval begins at s, those
      that no earlier code word has made: the path is new from where s is a node's start. */
  function NewNodes(s: nat, d: nat): nat
    requires d <= 16
  {
    if d <= 8 then 0 else NewNodes(s, d - 1) + if s % Unit(d - 1) == 0 then 1 else 0
  }

  /** The nodes made for the first p code words. */
  ghost function NodeCount(lens: Lengths, p: nat): nat
    requires p <= |lens|
  {
    if p == 0 then 0 else NodeCount(lens, p - 1) + NewNodes(Start(lens, p - 1), lens[p - 1])
  }

  /** How many of the first p code words do not fit the eight-bit lookup. */
  function LongCodes(lens: Lengths, p: nat): nat
    requires p <= |lens|
  {
    if p == 0 then 0 else LongCodes(lens, p - 1) + if lens[p - 1] > 8 then 1 else 0
  }

  /** The zeros among the low k bits of c. */
  function Zeros(c: nat, k: nat): (r: nat)
    ensures r <= k
  {
    if k == 0 then 0 else Zeros(c / 2, k - 1) + 1 - c % 2
  }

  /** The trailing zeros of y, up to k. */
  function Trailing(y: nat, k: nat): nat {
    if k == 0 || y % 2 == 1 then 0 else 1 + Trailing(y / 2, k - 1)
  }

  /** Adding one turns trailing ones into zeros and one zero into a one. */
  lemma {:induction false} Carry(c: nat, k: nat)
    ensures Zeros(c, k) + Trailing(c + 1, k) <= Zeros(c + 1, k) + 1
  {
    if k > 0 {
      if c % 2 == 0 {
        assert (c + 1) / 2 == c / 2;
      } else {
        assert (c + 1) / 2 == c / 2 + 1;
        Carry(c / 2, k - 1);
      }
    }
  }

  lemma {:induction false} ZerosShifted(c: nat, j: nat, k: nat)
    ensures Zeros(c * Pow2(j), k + j) == Zeros(c, k) + j
  {
    hide Pow2;
    Pow2Small();
    if j > 0 {
      Pow2Double(j - 1);
      MulDouble(c, Pow2(j - 1), Pow2(j));
      assert c * Pow2(j) / 2 == c * Pow2(j - 1);
      ZerosShifted(c, j - 1, k);
    }
  }

  lemma UnitDouble(d: nat)
    requires 0 < d <= 16
    ensures Unit(d - 1) == 2 * Unit(d)
  {
    hide Pow2;
    Pow2Double(16 - d);
  }

  /** Being a multiple of a large unit is being a multiple of every smaller one. */
  lemma AlignedBelow(s: nat, d: nat, n: nat)
    requires d <= n <= 16 && s % Unit(d) == 0
    ensures s % Unit(n) == 0
  {
    hide Unit, Pow2;
    UnitSplit(d, n);
    QuotientExact(s, Unit(d));
    MulAssoc(Quotient(s, Unit(d)), Pow2(n - d), Unit(n));
    DivExact(Quotient(s, Unit(d)) * Pow2(n - d), Unit(n));
  }

  lemma {:induction false} NewNodesTrailing(y: nat, n: nat)
    requires 8 <= n <= 16
    ensures NewNodes(y * Unit(n), n) == Trailing(y, n - 8)
  {
    hide Unit, Pow2;
    if n > 8 {
      var s := y * Unit(n);
      UnitDouble(n);
      if y % 2 == 0 {
        MulAssoc(y / 2, 2, Unit(n));
        NewNodesTrailing(y / 2, n - 1);
        DivExact(y / 2, Unit(n - 1));
      } else {
        OddIsUnaligned(y, Unit(n), Unit(n - 1));
        NoNewNodes(s, n);
      }
    }
  }

  lemma OddIsUnaligned(y: nat, u: nat, u2: nat)
    requires y % 2 == 1 && u > 0 && u2 == 2 * u
    ensures y * u % u2 != 0
  {
    MulSum(y / 2, 2, 1, u, u2);
    DivModUnique(y * u, u2, y / 2, u);
  }

  lemma {:induction false} NoNewNodes(s: nat, d: nat)
    requires 8 <= d <= 16
    requires d > 8 ==> s % Unit(d - 1) != 0
    ensures NewNodes(s, d) == 0
  {
    hide Unit, Pow2;
    if d > 8 {
      if d > 9 && s % Unit(d - 2) == 0 {
        AlignedBelow(s, d - 2, d - 1);
      }
      NoNewNodes(s, d - 1);
    }
  }

  lemma {:induction false} AllNewNodes(s: nat, n: nat, m: nat)
    requires 8 <= n <= m <= 16 && s % Unit(n) == 0
    ensures NewNodes(s, m) == NewNodes(s, n) + m - n
  {
    hide Unit, Pow2;
    if m > n {
      AllNewNodes(s, n, m - 1);
      AlignedBelow(s, n, m - 1);
    }
  }

  /** The zeros of code word p below its first eight bits. */
  ghost function PathZeros(lens: Lengths, p: nat): nat
    requires p < |lens| && lens[p] > 8
  {
    Zeros(Code(lens, p), lens[p] - 8)
  }

  lemma FirstLongCode(lens: Lengths, p: nat)
    requires p < |lens| && lens[p] > 8 && (p == 0 || lens[p - 1] <= 8)
    ensures NewNodes(Start(lens, p), lens[p]) == PathZeros(lens, p)
  {
    hide Unit, Pow2, Code, Start;
    var s, m := Start(lens, p), lens[p];
    CodeStart(lens, p);
    StartAligned(lens, p, 8);
    AllNewNodes(s, 8, m);
    UnitSplit(8, m);
    QuotientExact(s, Unit(8));
    var k := Quotient(s, Unit(8));
    MulAssoc(k, Pow2(m - 8), Unit(m));
    FactorUnique(Code(lens, p), k * Pow2(m - 8), Unit(m));
    ZerosShifted(k, m - 8, 0);
  }

  lemma NextLongCode(lens: Lengths, p: nat)
    requires 0 < p < |lens| && lens[p - 1] > 8
    ensures PathZeros(lens, p - 1) + NewNodes(Start(lens, p), lens[p]) <= PathZeros(lens, p) + 1
  {
    hide Unit, Pow2, Code, Start;
    var m, n, y := lens[p], lens[p - 1], Code(lens, p - 1) + 1;
    CodeStart(lens, p - 1);
    StartAligned(lens, p, n);
    AllNewNodes(Start(lens, p), n, m);
    NewNodesTrailing(y, n);
    Carry(y - 1, n - 8);
    AnnexC(lens, p);
    ZerosShifted(y, m - n, n - 8);
  }

  lemma {:induction false} NodesWithinZeros(lens: Lengths, p: nat)
    requires p <= |lens|
    ensures if p > 0 && lens[p - 1] > 8
            then NodeCount(lens, p) + 1 <= LongCodes(lens, p) + PathZeros(lens, p - 1)
            else NodeCount(lens, p) == LongCodes(lens, p) == 0
  {
    hide Unit, Start, PathZeros;
    if p > 0 {
      NodesWithinZeros(lens, p - 1);
      if lens[p - 1] > 8 {
        if p > 1 && lens[p - 2] > 8 {
          NextLongCode(lens, p - 1);
        } else {
          FirstLongCode(lens, p - 1);
        }
      }
    }
  }

  lemma FactorUnique(a: nat, b: nat, u: nat)
    requires u > 0 && a * u == b * u
    ensures a == b
  {
    if a < b {
      MulStrict(a, b, u);
    } else if b < a {
      MulStrict(b, a, u);
    }
  }

  /** A canonical code has at most one half-full node on each of the eight levels of the
      overflow tree, so its nodes outnumber the long code words by at most seven. */
  lemma NodesWithinLongCodes(lens: Lengths)
    ensures NodeCount(lens, |lens|) <= LongCodes(lens, |lens|) + 7
  {
    NodesWithinZeros(lens, |lens|);
  }

  /** The tree array has room for 256 nodes; 249 long code words never need more. */
  lemma TreeFits(lens: Lengths)
    requires LongCodes(lens, |lens|) <= 249
    ensures 2 * NodeCount(lens, |lens|) <= 512
  {
    NodesWithinLongCodes(lens);
  }
}
