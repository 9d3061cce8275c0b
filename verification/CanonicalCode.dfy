/** The Huffman codes that a table specification stands for: ITU-T T.81 Annex C.

    Code words are seen as intervals: laid end to end in order of increasing length, the code
    word of length n takes up 2^(16-n) of the 2^16 possible sixteen-bit windows, and a
    window begins with the code word exactly if it lies in the interval. */
module CanonicalCode {
  import opened Arith

  ghost predicate IsLengths(lens: seq<nat>) {
    && (forall p :: 0 <= p < |lens| ==> 1 <= lens[p] <= 16)
    && forall p, q :: 0 <= p <= q < |lens| ==> lens[p] <= lens[q]
  }

  /** Code lengths in the order in which the code words are assigned. */
  type Lengths = s: seq<nat> | IsLengths(s) ghost witness []

  /** How many windows begin with a given word of n bits. */
  function Unit(n: nat): (r: nat)
    requires n <= 16
    ensures r > 0
  {
    Pow2(16 - n)
  }

  /** The first window that belongs to code word p. */
  ghost function Start(lens: Lengths, p: nat): nat
    requires p <= |lens|
  {
    if p == 0 then 0 else Start(lens, p - 1) + Unit(lens[p - 1])
  }

  /** Code word p, as a number of lens[p] bits. */
  ghost function Code(lens: Lengths, p: nat): nat
    requires p < |lens|
  {
    Quotient(Start(lens, p), Unit(lens[p]))
  }

  /** Kraft's inequality: the code words fit into the windows there are. */
  ghost predicate Kraft(lens: Lengths) {
    Start(lens, |lens|) <= 0x1_0000
  }

  /** The window w begins with code word p. */
  ghost predicate Begins(lens: Lengths, p: nat, w: nat) {
    p < |lens| && Start(lens, p) <= w < Start(lens, p + 1)
  }

  /** The first d bits of a window. */
  function Prefix(w: nat, d: nat): nat
    requires d <= 16
  {
    Quotient(w, Unit(d))
  }

  /** A word of d bits is a proper prefix of one of the first n code words. */
  ghost predicate Inner(lens: Lengths, n: nat, d: nat, x: nat) {
    n <= |lens| && d <= 16 &&
    exists q: nat :: q < n && lens[q] > d && Prefix(Start(lens, q), d) == x
  }

  lemma UnitSplit(d: nat, n: nat)
    requires d <= n <= 16
    ensures Unit(d) == Pow2(n - d) * Unit(n)
  {
    hide Pow2;
    Pow2Add(n - d, 16 - n);
  }

  lemma UnitZero()
    ensures Unit(0) == 0x1_0000 && Unit(8) == 256 && Unit(16) == 1
  {
    hide Pow2;
    Pow2Small();
  }

  lemma {:induction false} StartMonotone(lens: Lengths, p: nat, q: nat)
    requires p <= q <= |lens|
    ensures Start(lens, p) <= Start(lens, q)
    ensures p < q ==> Start(lens, p) + Unit(lens[p]) <= Start(lens, q)
  {
    hide Unit;
    if p < q {
      StartMonotone(lens, p, q - 1);
    }
  }

  /** The windows before code word p make up a whole number of words of n bits. */
  lemma {:induction false} StartAligned(lens: Lengths, p: nat, n: nat)
    requires p <= |lens| && n <= 16
    requires p > 0 ==> lens[p - 1] <= n
    ensures Start(lens, p) % Unit(n) == 0
  {
    hide Unit, Pow2;
    if p > 0 {
      StartAligned(lens, p - 1, n);
      UnitSplit(lens[p - 1], n);
      ModAdd(Start(lens, p - 1), Pow2(n - lens[p - 1]), Unit(n));
    }
  }

  lemma CodeStart(lens: Lengths, p: nat)
    requires p < |lens|
    ensures Start(lens, p) == Code(lens, p) * Unit(lens[p])
    ensures Start(lens, p + 1) == (Code(lens, p) + 1) * Unit(lens[p])
  {
    hide Unit, Pow2;
    StartAligned(lens, p, lens[p]);
    QuotientExact(Start(lens, p), Unit(lens[p]));
  }

  /** The procedure of T.81 Annex C, figure C.2: codes count up, and are shifted left when
      the length grows. */
  lemma AnnexC(lens: Lengths, p: nat)
    requires p < |lens|
    ensures p == 0 ==> Code(lens, p) == 0
    ensures p > 0 ==> Code(lens, p) == (Code(lens, p - 1) + 1) * Pow2(lens[p] - lens[p - 1])
  {
    hide Unit, Pow2;
    if p == 0 {
      assert Start(lens, 0) == 0;
      DivExact(0, Unit(lens[p]));
    } else {
      CodeStart(lens, p - 1);
      UnitSplit(lens[p - 1], lens[p]);
      var c, k, u := Code(lens, p - 1) + 1, Pow2(lens[p] - lens[p - 1]), Unit(lens[p]);
      MulAssoc(c, k, u);
      DivExact(c * k, u);
    }
  }

  /** Lying in the interval of a code word is beginning with its bits. */
  lemma BeginsIsPrefix(lens: Lengths, p: nat, w: nat)
    requires p < |lens|
    ensures Begins(lens, p, w) <==> Prefix(w, lens[p]) == Code(lens, p)
  {
    hide Unit;
    CodeStart(lens, p);
    var u, c := Unit(lens[p]), Code(lens, p);
    assert (c + 1) * u == c * u + u;
    if Begins(lens, p, w) {
      DivModUnique(w, u, c, w - c * u);
    }
  }

  /** No window begins with two code words, and none with both a code word and one that
      extends it: the code is prefix free. */
  lemma PrefixFree(lens: Lengths, p: nat, q: nat, w: nat)
    requires Begins(lens, p, w) && Begins(lens, q, w)
    ensures p == q
  {
    if p < q {
      StartMonotone(lens, p + 1, q);
    } else if q < p {
      StartMonotone(lens, q + 1, p);
    }
  }

  lemma CodeFits(lens: Lengths, p: nat)
    requires p < |lens| && Kraft(lens)
    ensures Start(lens, p + 1) <= 0x1_0000
    ensures Code(lens, p) < Pow2(lens[p])
  {
    hide Pow2, Unit, Start, Code;
    StartMonotone(lens, p + 1, |lens|);
    CodeStart(lens, p);
    UnitSplit(0, lens[p]);
    UnitZero();
    FactorBound(Code(lens, p), Pow2(lens[p]), Unit(lens[p]), Start(lens, p + 1));
  }

  /** A shorter prefix is a prefix of a longer one. */
  lemma PrefixPrefix(w: nat, d: nat, n: nat)
    requires d <= n <= 16
    ensures Prefix(w, d) == Prefix(w, n) / Pow2(n - d)
  {
    hide Unit, Pow2;
    UnitSplit(d, n);
    DivDiv(w, Unit(n), Pow2(n - d), Unit(d));
  }

  /** A window shares all its leading bits with the code word it begins with. */
  lemma BeginsSharesPrefix(lens: Lengths, p: nat, w: nat, d: nat)
    requires Begins(lens, p, w) && d <= lens[p]
    ensures Prefix(w, d) == Prefix(Start(lens, p), d)
  {
    hide Unit, Pow2, Prefix;
    BeginsIsPrefix(lens, p, w);
    StartMonotone(lens, p, p + 1);
    assert Begins(lens, p, Start(lens, p));
    BeginsIsPrefix(lens, p, Start(lens, p));
    PrefixPrefix(w, d, lens[p]);
    PrefixPrefix(Start(lens, p), d, lens[p]);
  }

  /** A proper prefix of one code word is never another code word. */
  lemma InnerIsNoCode(lens: Lengths, p: nat, q: nat)
    requires p < |lens| && q < |lens| && lens[p] < lens[q]
    ensures Prefix(Start(lens, q), lens[p]) != Code(lens, p)
  {
    hide Unit, Pow2;
    StartMonotone(lens, q, q + 1);
    BeginsIsPrefix(lens, p, Start(lens, q));
    if Begins(lens, p, Start(lens, q)) {
      PrefixFree(lens, p, q, Start(lens, q));
    }
  }

  /** Which prefixes of code word p have been met before: those that do not begin exactly
      where the code word's interval begins. */
  lemma SeenPrefix(lens: Lengths, p: nat, d: nat)
    requires p < |lens| && d < lens[p]
    ensures Inner(lens, p, d, Prefix(Start(lens, p), d)) <==> Start(lens, p) % Unit(d) != 0
  {
    hide Unit, Pow2, Start, Quotient;
    var s, u := Start(lens, p), Unit(d);
    if Inner(lens, p, d, Prefix(s, d)) {
      var q: nat :| q < p && lens[q] > d && Prefix(Start(lens, q), d) == Prefix(s, d);
      StartMonotone(lens, q, p);
      SameQuotient(Start(lens, q), s, u);
    }
    if s % u != 0 {
      if p == 0 || lens[p - 1] <= d {
        StartAligned(lens, p, d);
        assert false;
      }
      LastBeforeShares(lens, p, d);
    }
  }

  lemma LastBeforeShares(lens: Lengths, p: nat, d: nat)
    requires 0 < p < |lens| && d < lens[p - 1]
    requires Start(lens, p) % Unit(d) != 0
    ensures Prefix(Start(lens, p - 1), d) == Prefix(Start(lens, p), d)
  {
    hide Unit, Pow2, Start, Code;
    var s, u := Start(lens, p), Unit(d);
    CodeStart(lens, p - 1);
    UnitSplit(d, lens[p - 1]);
    CoarseFloor(Code(lens, p - 1), Unit(lens[p - 1]), s, Pow2(lens[p - 1] - d), u);
  }
}
