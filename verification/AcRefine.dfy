/** Successive approximation of AC coefficients: jpeg_decoder::decode_block_ac_refine, which
    implements ITU-T T.81 section G.1.2.3. */
module AcRefine {
  import opened Arith
  import opened BitStream
  import opened BitReaders
  import opened CanonicalCode
  import opened HuffmanTrie
  import opened HuffmanCover
  import opened HuffmanTables
  import opened HuffmanDecode
  import opened IdctTables
  import opened BlockDecoder

  /** One correction bit of T.81 section G.1.2.3: a coefficient that is a multiple of 2 * p1
      moves away from zero by p1 if the bit is one, unless its bit p1 is set already. */
  function Corrected(v: int, bit: nat, p1: nat): int
    requires p1 > 0
  {
    if bit == 0 || v / p1 % 2 != 0 then v else if v >= 0 then Wrap16(v + p1) else Wrap16(v - p1)
  }

  /** Correction bits from bit pos on, for the non-zero coefficients from position k on, until r
      zero coefficients have been passed and another one is found, or the band ends. */
  datatype Skipped = Skipped(zz: seq<int>, k: int, next: nat)

  function Skip(f: nat -> byte, pos: nat, k: nat, se: nat, p1: nat, r: nat, zz: seq<int>): (s: Skipped)
    requires |zz| == 64 && se < 64 && p1 > 0
    ensures |s.zz| == 64 && k <= s.k && (k <= se ==> s.k <= se + 1)
    decreases se + 1 - k
  {
    if k > se then Skipped(zz, k, pos)
    else if zz[k] != 0 then Skip(f, pos + 1, k + 1, se, p1, r, zz[k := Corrected(zz[k], Bit(f, pos), p1)])
    else if r == 0 then Skipped(zz, k, pos)
    else Skip(f, pos, k + 1, se, p1, r - 1, zz)
  }

  /** A band after one refinement scan: the coefficients, the position in the stream, the blocks
      still to come in the current end-of-band run, and how many of the bits read were not
      correction bits. */
  datatype RefineOutcome = Refused | Refined(zz: seq<int>, next: nat, eobRun: nat, control: nat)

  /** The rest of a band within an end-of-band run: there are correction bits only. */
  function InEobRun(f: nat -> byte, pos: nat, k: nat, se: nat, p1: nat, zz: seq<int>, eobRun: nat, control: nat): RefineOutcome
    requires |zz| == 64 && se < 64 && p1 > 0 && eobRun > 0
  {
    var s := Skip(f, pos, k, se, p1, 64, zz);
    Refined(s.zz, s.next, eobRun - 1, control)
  }

  /** The length of an end-of-band run: T.81 table G.1. */
  function EobLength(f: nat -> byte, pos: nat, r: nat): (n: nat)
    ensures n > 0
  {
    Pow2(r) + Window(f, pos, r)
  }

  /** A coefficient that becomes non-zero. */
  function Newborn(bit: nat, p1: nat): int {
    if bit == 1 then Wrap16(p1) else Wrap16(-(p1 as int))
  }

  /** The block after a zero run: the new coefficient is put where the run ended. */
  function Placed(zz: seq<int>, k: nat, s: nat, v: int): (r: seq<int>)
    requires |zz| == 64
    ensures |r| == 64
  {
    if s != 0 && k < 64 then zz[k := v] else zz
  }

  /** A band from position k on. */
  ghost function Band(h: Spec, f: nat -> byte, pos: nat, k: nat, se: nat, p1: nat, zz: seq<int>, control: nat): RefineOutcome
    requires h.Ok() && |zz| == 64 && se < 64 && p1 > 0
    decreases se + 1 - k
  {
    if k > se then Refined(zz, pos, 0, control)
    else
      var (symbol, next) := SymbolAt(h, f, pos);
      var r: nat, s: nat := symbol / 16, symbol % 16;
      if s > 1 then Refused
      else if s == 0 && r != 15 then
        InEobRun(f, next + r, k, se, p1, zz, EobLength(f, next, r), control + (next - pos) + r)
      else
        var after := Skip(f, next + s, k, se, p1, r, zz);
        Band(h, f, after.next, after.k + 1, se, p1, Placed(after.zz, after.k, s, Newborn(Bit(f, next), p1)),
             control + (next - pos) + s)
  }

  /** One block of a refinement scan. */
  ghost function Refine(h: Spec, f: nat -> byte, pos: nat, ss: nat, se: nat, p1: nat, zz: seq<int>, eobRun: nat): RefineOutcome
    requires h.Ok() && |zz| == 64 && se < 64 && p1 > 0
  {
    if eobRun == 0 then Band(h, f, pos, ss, se, p1, zz, 0) else InEobRun(f, pos, ss, se, p1, zz, eobRun, 0)
  }

  // ---- what refinement does to a block ----

  /** The non-zero coefficients from position a up to b. */
  function NonZeros(zz: seq<int>, a: nat, b: nat): nat
    requires |zz| == 64 && b <= 64
    decreases b - a
  {
    if a >= b then 0 else NonZeros(zz, a, b - 1) + if zz[b - 1] != 0 then 1 else 0
  }

  /** The coefficients a refinement scan starts from have the lower bits still to come. */
  ghost predicate Coarse(zz: seq<int>, a: nat, b: nat, p1: nat)
    requires |zz| == 64 && b <= 64
  {
    p1 > 0 && forall j :: a <= j < b ==> zz[j] % (2 * p1) == 0 && -0x8000 < zz[j] < 0x8000
  }

  /** A non-zero coefficient keeps its sign, and its magnitude grows by the correction bit times p1. */
  ghost predicate Grown(v: int, v': int, p1: nat) {
    v' == v || v' == if v > 0 then v + p1 else v - p1
  }

  lemma CorrectedGrows(v: int, bit: nat, p1: nat)
    requires 0 < p1 && v != 0 && v % (2 * p1) == 0 && -0x8000 < v < 0x8000 && bit <= 1
    requires 0x8000 % (2 * p1) == 0 && -0x8000 % (2 * p1) == 0
    ensures Corrected(v, bit, p1) == if bit == 0 then v else if v > 0 then v + p1 else v - p1
    ensures -0x8000 < Corrected(v, bit, p1) < 0x8000 && Corrected(v, bit, p1) != 0
  {
    var q := 2 * p1;
    EvenQuotient(v, p1);
    RoomBelow(v, 0x8000, q);
    RoomBelow(-0x8000, v, q);
  }

  lemma EvenQuotient(v: int, p1: nat)
    requires p1 > 0 && v % (2 * p1) == 0
    ensures v / p1 % 2 == 0
  {
    Multiple(v, 2 * p1);
    EvenMultiple(v, v / (2 * p1), p1);
  }

  lemma Multiple(v: int, q: nat)
    requires q > 0 && v % q == 0
    ensures v == v / q * q
  {
  }

  lemma EvenMultiple(v: int, m: int, p1: nat)
    requires p1 > 0 && v == m * (2 * p1)
    ensures v / p1 % 2 == 0
  {
    MulAssoc(m, 2, p1);
    DivModUnique(v, p1, m * 2, 0);
  }

  /** Different multiples of q are at least q apart. */
  lemma RoomBelow(a: int, b: int, q: nat)
    requires q > 0 && a % q == 0 && b % q == 0 && a < b
    ensures a + q <= b
  {
    var m, n := a / q, b / q;
    assert a == m * q && b == n * q;
    if m >= n {
      MulMonotone(n, m, q);
    }
    MulMonotone(m + 1, n, q);
    assert (m + 1) * q == m * q + q;
  }

  // ---- zero runs ----

  lemma {:induction false} NonZerosFrom(zz: seq<int>, a: nat, b: nat)
    requires |zz| == 64 && a < b <= 64
    ensures NonZeros(zz, a, b) == NonZeros(zz, a + 1, b) + if zz[a] != 0 then 1 else 0
    decreases b
  {
    if a + 1 < b {
      NonZerosFrom(zz, a, b - 1);
    }
  }

  lemma {:induction false} NonZerosSame(zz: seq<int>, zz': seq<int>, a: nat, b: nat)
    requires |zz| == |zz'| == 64 && b <= 64
    requires forall j :: a <= j < b ==> zz[j] == zz'[j]
    ensures NonZeros(zz, a, b) == NonZeros(zz', a, b)
    decreases b
  {
    if a < b {
      NonZerosSame(zz, zz', a, b - 1);
    }
  }

  lemma {:induction false} NonZerosSplit(zz: seq<int>, a: nat, b: nat, c: nat)
    requires |zz| == 64 && a <= b <= c <= 64
    ensures NonZeros(zz, a, c) == NonZeros(zz, a, b) + NonZeros(zz, b, c)
    decreases c
  {
    if b < c {
      NonZerosSplit(zz, a, b, c - 1);
    }
  }

  /** The coefficients from position k up to e have each taken the next bit if they were not
      zero, starting at bit pos, and nothing else has changed. */
  ghost predicate Correct(f: nat -> byte, pos: nat, k: nat, e: nat, p1: nat, zz: seq<int>, zz': seq<int>)
    requires |zz| == |zz'| == 64 && e <= 64 && p1 > 0
  {
    && (forall j :: 0 <= j < 64 && !(k <= j < e && zz[j] != 0) ==> zz'[j] == zz[j])
    && forall j: nat :: k <= j < e && zz[j] != 0 ==>
         zz'[j] == Corrected(zz[j], Bit(f, pos + NonZeros(zz, k, j)), p1)
  }

  lemma CorrectNothing(f: nat -> byte, pos: nat, k: nat, p1: nat, zz: seq<int>)
    requires |zz| == 64 && k <= 64 && p1 > 0
    ensures NonZeros(zz, k, k) == 0 && Correct(f, pos, k, k, p1, zz, zz)
  {
  }

  /** One non-zero coefficient more, at the front. */
  lemma CorrectOne(f: nat -> byte, pos: nat, k: nat, e: nat, p1: nat, zz: seq<int>, zz': seq<int>)
    requires |zz| == |zz'| == 64 && k < e <= 64 && p1 > 0 && zz[k] != 0
    requires Correct(f, pos + 1, k + 1, e, p1, zz[k := Corrected(zz[k], Bit(f, pos), p1)], zz')
    ensures Correct(f, pos, k, e, p1, zz, zz')
    ensures NonZeros(zz, k, e) == NonZeros(zz[k := Corrected(zz[k], Bit(f, pos), p1)], k + 1, e) + 1
  {
    hide Corrected, Bit, NonZeros;
    var zz1 := zz[k := Corrected(zz[k], Bit(f, pos), p1)];
    NonZerosFrom(zz, k, e);
    NonZerosSame(zz, zz1, k + 1, e);
    forall j: nat | k <= j < e && zz[j] != 0
      ensures zz'[j] == Corrected(zz[j], Bit(f, pos + NonZeros(zz, k, j)), p1)
    {
      if j == k {
        CorrectNothing(f, pos, k, p1, zz);
      } else {
        NonZerosFrom(zz, k, j);
        NonZerosSame(zz, zz1, k + 1, j);
      }
    }
  }

  /** One zero coefficient more, at the front. */
  lemma CorrectZero(f: nat -> byte, pos: nat, k: nat, e: nat, p1: nat, zz: seq<int>, zz': seq<int>)
    requires |zz| == |zz'| == 64 && k < e <= 64 && p1 > 0 && zz[k] == 0
    requires Correct(f, pos, k + 1, e, p1, zz, zz')
    ensures Correct(f, pos, k, e, p1, zz, zz')
    ensures NonZeros(zz, k, e) == NonZeros(zz, k + 1, e)
  {
    hide Corrected, Bit, NonZeros;
    NonZerosFrom(zz, k, e);
    forall j: nat | k < j < e
      ensures NonZeros(zz, k, j) == NonZeros(zz, k + 1, j)
    {
      NonZerosFrom(zz, k, j);
    }
  }

  /** What a zero run does: each non-zero coefficient it passes takes one bit, in order; it stops
      at a zero coefficient or at the end of the band. */
  lemma {:induction false} SkipCorrects(f: nat -> byte, pos: nat, k: nat, se: nat, p1: nat, r: nat, zz: seq<int>)
    requires |zz| == 64 && se < 64 && k <= se + 1 && p1 > 0
    ensures var s := Skip(f, pos, k, se, p1, r, zz);
            && k <= s.k <= se + 1
            && s.next == pos + NonZeros(zz, k, s.k)
            && (s.k <= se ==> zz[s.k] == 0)
            && Correct(f, pos, k, s.k, p1, zz, s.zz)
    decreases se + 1 - k
  {
    hide Corrected, Bit, NonZeros, Correct;
    CorrectNothing(f, pos, k, p1, zz);
    if k <= se {
      if zz[k] != 0 {
        var zz1 := zz[k := Corrected(zz[k], Bit(f, pos), p1)];
        SkipCorrects(f, pos + 1, k + 1, se, p1, r, zz1);
        var s := Skip(f, pos + 1, k + 1, se, p1, r, zz1);
        CorrectOne(f, pos, k, s.k, p1, zz, s.zz);
        SkipStopsWithin(f, pos + 1, k + 1, se, p1, r, zz1, zz);
      } else if r > 0 {
        SkipCorrects(f, pos, k + 1, se, p1, r - 1, zz);
        var s := Skip(f, pos, k + 1, se, p1, r - 1, zz);
        CorrectZero(f, pos, k, s.k, p1, zz, s.zz);
      }
    }
  }

  lemma SkipStopsWithin(f: nat -> byte, pos: nat, k: nat, se: nat, p1: nat, r: nat, zz1: seq<int>, zz: seq<int>)
    requires |zz| == |zz1| == 64 && se < 64 && k <= se + 1 && p1 > 0
    requires forall j :: k <= j < 64 ==> zz1[j] == zz[j]
    ensures var s := Skip(f, pos, k, se, p1, r, zz1); s.k <= se ==> zz1[s.k] == zz[s.k]
  {
  }

  /** A run of 64 zeros never ends inside a band. */
  lemma {:induction false} LongSkipReachesEnd(f: nat -> byte, pos: nat, k: nat, se: nat, p1: nat, r: nat, zz: seq<int>)
    requires |zz| == 64 && se < 64 && k <= se + 1 && p1 > 0 && r >= se + 1 - k
    ensures Skip(f, pos, k, se, p1, r, zz).k == se + 1
    decreases se + 1 - k
  {
    hide Corrected, Bit;
    if k <= se {
      if zz[k] != 0 {
        LongSkipReachesEnd(f, pos + 1, k + 1, se, p1, r, zz[k := Corrected(zz[k], Bit(f, pos), p1)]);
      } else {
        LongSkipReachesEnd(f, pos, k + 1, se, p1, r - 1, zz);
      }
    }
  }

  // ---- a whole band ----

  /** The value that a zero run with a new coefficient puts behind the end of its band, 0 if every
      such run ends inside it. */
  ghost function Overrun(h: Spec, f: nat -> byte, pos: nat, k: nat, se: nat, p1: nat, zz: seq<int>): int
    requires h.Ok() && |zz| == 64 && se < 64 && p1 > 0
    decreases se + 1 - k
  {
    if k > se then 0
    else
      var (symbol, next) := SymbolAt(h, f, pos);
      var r: nat, s: nat := symbol / 16, symbol % 16;
      if s > 1 || (s == 0 && r != 15) then 0
      else
        var after := Skip(f, next + s, k, se, p1, r, zz);
        var v := Newborn(Bit(f, next), p1);
        if s == 1 && after.k > se then v
        else Overrun(h, f, after.next, after.k + 1, se, p1, Placed(after.zz, after.k, s, v))
  }

  /** How a coefficient of the band may come out: a non-zero one keeps its sign and grows by 0 or
      p1, a zero one stays zero or becomes p1 or -p1. */
  ghost predicate Stepped(v: int, v': int, p1: nat) {
    if v != 0 then Grown(v, v', p1) else v' == 0 || v' == p1 || v' == -(p1 as int)
  }

  /** The scan steps the coefficients from position k up to e, puts v at position e unless v is 0
      or e is no position, and leaves the others. */
  ghost predicate Scanned(zz: seq<int>, zz': seq<int>, k: nat, e: nat, p1: nat, v: int)
    requires |zz| == |zz'| == 64 && e <= 64
  {
    && (forall j :: 0 <= j < 64 && (j < k || e < j) ==> zz'[j] == zz[j])
    && (forall j :: k <= j < e ==> Stepped(zz[j], zz'[j], p1))
    && (e < 64 && k <= e ==> zz'[e] == if v != 0 then v else zz[e])
  }

  /** The bit of weight p1 is a bit of a 16-bit coefficient, and there is one bit below the sign
      above it: Al is at most 14. */
  ghost predicate Weight(p1: nat) {
    0 < p1 <= 0x4000 && 0x8000 % (2 * p1) == 0 && -0x8000 % (2 * p1) == 0
  }

  lemma WeightOf(al: nat)
    requires al <= 14
    ensures Weight(Pow2(al))
  {
    hide Pow2;
    Pow2Small();
    Pow2Add(al, 14 - al);
    Pow2Monotone(al, 14);
    MulDouble(Pow2(14 - al), Pow2(al), 2 * Pow2(al));
    DivExact(Pow2(14 - al), 2 * Pow2(al));
    DivExact(-(Pow2(14 - al) as int), 2 * Pow2(al));
    NegativeProduct(Pow2(14 - al), 2 * Pow2(al));
  }

  lemma NegativeProduct(a: int, b: int)
    ensures -a * b == -(a * b)
  {
  }

  lemma NewbornStep(bit: nat, p1: nat)
    requires Weight(p1)
    ensures Newborn(bit, p1) == if bit == 1 then p1 else -(p1 as int)
  {
  }

  /** A run steps the coefficients it passes. */
  lemma RunSteps(f: nat -> byte, pos: nat, k: nat, e: nat, p1: nat, zz: seq<int>, zz': seq<int>)
    requires |zz| == |zz'| == 64 && k <= e <= 64 && Weight(p1) && Coarse(zz, k, e, p1)
    requires Correct(f, pos, k, e, p1, zz, zz')
    ensures forall j :: k <= j < e ==> Stepped(zz[j], zz'[j], p1)
  {
    hide Corrected, Bit, NonZeros;
    forall j: nat | k <= j < e
      ensures Stepped(zz[j], zz'[j], p1)
    {
      if zz[j] != 0 {
        var i := pos + NonZeros(zz, k, j);
        BitBound(f, i);
        CorrectedGrows(zz[j], Bit(f, i), p1);
      }
    }
  }

  lemma BitBound(f: nat -> byte, i: nat)
    ensures Bit(f, i) <= 1
  {
  }

  /** Putting together what a run, its new coefficient and the rest of the band do. */
  lemma Join(zz: seq<int>, zz1: seq<int>, zz2: seq<int>, zz3: seq<int>, k: nat, m: nat, e: nat, p1: nat, s: nat, v: int, w: int)
    requires |zz| == |zz1| == |zz2| == |zz3| == 64 && k <= m < e <= 64 && zz[m] == 0
    requires forall j :: 0 <= j < 64 && !(k <= j < m) ==> zz1[j] == zz[j]
    requires forall j :: k <= j < m ==> Stepped(zz[j], zz1[j], p1)
    requires zz2 == if s != 0 then zz1[m := v] else zz1
    requires v == p1 || v == -(p1 as int)
    requires Scanned(zz2, zz3, m + 1, e, p1, w)
    ensures Scanned(zz, zz3, k, e, p1, w)
  {
    hide Grown;
    forall j | k <= j < e
      ensures Stepped(zz[j], zz3[j], p1)
    {
      if j > m {
        assert zz2[j] == zz[j];
      }
    }
  }

  lemma {:induction false} BandReads(h: Spec, f: nat -> byte, pos: nat, k: nat, se: nat, p1: nat, zz: seq<int>, control: nat)
    requires h.Ok() && |zz| == 64 && se < 64 && k <= se + 2 && p1 > 0
    ensures var o := Band(h, f, pos, k, se, p1, zz, control);
            o.Refined? ==>
              |o.zz| == 64 && o.control >= control && o.next == pos + (o.control - control) + NonZeros(zz, k, se + 1)
    decreases se + 2 - k
  {
    hide SymbolAt, Corrected, Bit, Skip, NonZeros, Window, Pow2, Newborn;
    if k > se {
      NoneInEmpty(zz, k, se + 1);
    } else {
      var (symbol, next) := SymbolAt(h, f, pos);
      var r: nat, s: nat := symbol / 16, symbol % 16;
      if s == 0 && r != 15 {
        SkipCorrects(f, next + r, k, se, p1, 64, zz);
        LongSkipReachesEnd(f, next + r, k, se, p1, 64, zz);
      } else if s <= 1 {
        SkipCorrects(f, next + s, k, se, p1, r, zz);
        var after := Skip(f, next + s, k, se, p1, r, zz);
        var zz2 := Placed(after.zz, after.k, s, Newborn(Bit(f, next), p1));
        BandReads(h, f, after.next, after.k + 1, se, p1, zz2, control + (next - pos) + s);
        NonZerosSame(zz, zz2, after.k + 1, se + 1);
        if after.k <= se {
          NonZerosSplit(zz, k, after.k, se + 1);
          NonZerosFrom(zz, after.k, se + 1);
        } else {
          NoneInEmpty(zz2, after.k + 1, se + 1);
        }
      }
    }
  }

  lemma NoneInEmpty(zz: seq<int>, a: nat, b: nat)
    requires |zz| == 64 && b <= 64 && b <= a
    ensures NonZeros(zz, a, b) == 0
  {
  }

  /** What the band does to a block of coefficients that are multiples of 2 * p1. */
  lemma {:induction false} BandSteps(h: Spec, f: nat -> byte, pos: nat, k: nat, se: nat, p1: nat, zz: seq<int>, control: nat)
    requires h.Ok() && |zz| == 64 && se < 64 && k <= se + 2 && p1 > 0 && Weight(p1)
    requires Coarse(zz, k, se + 1, p1)
    ensures var o := Band(h, f, pos, k, se, p1, zz, control);
            o.Refined? ==>
              |o.zz| == 64 && Scanned(zz, o.zz, k, se + 1, p1, Overrun(h, f, pos, k, se, p1, zz))
    decreases se + 2 - k
  {
    hide SymbolAt, Corrected, Bit, Skip, NonZeros, Window, Pow2, Newborn, Stepped, Weight, Coarse, Placed;
    if k <= se {
      var (symbol, next) := SymbolAt(h, f, pos);
      var r: nat, s: nat := symbol / 16, symbol % 16;
      if s == 0 && r != 15 {
        EobSteps(f, next + r, k, se, p1, zz);
      } else if s <= 1 {
        var v := Newborn(Bit(f, next), p1);
        var after := Skip(f, next + s, k, se, p1, r, zz);
        var zz2 := Placed(after.zz, after.k, s, v);
        SkipCorrects(f, next + s, k, se, p1, r, zz);
        StillCoarse(f, next + s, k, se, p1, r, zz, s, v);
        BandSteps(h, f, after.next, after.k + 1, se, p1, zz2, control + (next - pos) + s);
        var o := Band(h, f, after.next, after.k + 1, se, p1, zz2, control + (next - pos) + s);
        if o.Refined? {
          NewbornStep(Bit(f, next), p1);
          RunThenRest(f, next + s, k, se, p1, r, zz, s, v, o.zz, Overrun(h, f, after.next, after.k + 1, se, p1, zz2));
        }
      }
    }
  }

  /** What follows a run is as coarse as it was. */
  lemma StillCoarse(f: nat -> byte, pos: nat, k: nat, se: nat, p1: nat, r: nat, zz: seq<int>, s: nat, v: int)
    requires |zz| == 64 && se < 64 && k <= se && p1 > 0 && Weight(p1) && Coarse(zz, k, se + 1, p1)
    ensures var after := Skip(f, pos, k, se, p1, r, zz);
            Coarse(Placed(after.zz, after.k, s, v), after.k + 1, se + 1, p1)
  {
    hide Corrected, Bit, Skip, NonZeros, Weight;
    SkipCorrects(f, pos, k, se, p1, r, zz);
  }

  /** A run with its new coefficient, and the rest of the band. */
  lemma RunThenRest(f: nat -> byte, pos: nat, k: nat, se: nat, p1: nat, r: nat, zz: seq<int>, s: nat, v: int, zz3: seq<int>, w: int)
    requires |zz| == |zz3| == 64 && se < 64 && k <= se && p1 > 0 && Weight(p1) && Coarse(zz, k, se + 1, p1)
    requires v == p1 || v == -(p1 as int)
    requires var after := Skip(f, pos, k, se, p1, r, zz);
             && (after.k <= se ==> Scanned(Placed(after.zz, after.k, s, v), zz3, after.k + 1, se + 1, p1, w))
             && (after.k > se ==> zz3 == Placed(after.zz, after.k, s, v) && w == 0)
    ensures Scanned(zz, zz3, k, se + 1, p1, if s != 0 && Skip(f, pos, k, se, p1, r, zz).k > se then v else w)
  {
    hide Corrected, Bit, Skip, NonZeros, Weight, Stepped;
    SkipCorrects(f, pos, k, se, p1, r, zz);
    var after := Skip(f, pos, k, se, p1, r, zz);
    RunSteps(f, pos, k, after.k, p1, zz, after.zz);
    if after.k <= se {
      Join(zz, after.zz, Placed(after.zz, after.k, s, v), zz3, k, after.k, se + 1, p1, s, v, w);
    }
  }

  lemma EobSteps(f: nat -> byte, pos: nat, k: nat, se: nat, p1: nat, zz: seq<int>)
    requires |zz| == 64 && se < 64 && k <= se + 1 && p1 > 0 && Weight(p1) && Coarse(zz, k, se + 1, p1)
    ensures var s := Skip(f, pos, k, se, p1, 64, zz);
            s.next == pos + NonZeros(zz, k, se + 1) && Scanned(zz, s.zz, k, se + 1, p1, 0)
  {
    hide Corrected, Bit, Skip, NonZeros, Stepped, Weight;
    SkipCorrects(f, pos, k, se, p1, 64, zz);
    LongSkipReachesEnd(f, pos, k, se, p1, 64, zz);
    RunSteps(f, pos, k, se + 1, p1, zz, Skip(f, pos, k, se, p1, 64, zz).zz);
  }

  // ---- the main results ----

  /** The value an end-of-band run or a zero run leaves behind the band of a block. */
  ghost function Spill(h: Spec, f: nat -> byte, pos: nat, ss: nat, se: nat, p1: nat, zz: seq<int>, eobRun: nat): int
    requires h.Ok() && |zz| == 64 && se < 64 && p1 > 0
  {
    if eobRun == 0 then Overrun(h, f, pos, ss, se, p1, zz) else 0
  }

  /** The block is the same outside the band. */
  ghost predicate OutsideKept(zz: seq<int>, zz': seq<int>, ss: nat, se: nat)
    requires |zz| == |zz'| == 64
  {
    forall j :: 0 <= j < 64 && !(ss <= j <= se) ==> zz'[j] == zz[j]
  }

  /** T.81 section G.1.2.3. A refinement scan reads one correction bit for every non-zero
      coefficient of the band, besides its code words, signs and run lengths. It steps the
      coefficients of the band by at most one bit of weight 2^Al, and it keeps all others exactly
      if no zero run with a new coefficient passes the end of the band, up to a value that is
      there already or would lie behind the block. */
  lemma RefinementMeaning(h: Spec, f: nat -> byte, pos: nat, ss: nat, se: nat, al: nat, zz: seq<int>, eobRun: nat)
    requires h.Ok() && |zz| == 64 && ss <= se < 64 && al <= 14 && Coarse(zz, ss, se + 1, Pow2(al))
    ensures var o := Refine(h, f, pos, ss, se, Pow2(al), zz, eobRun);
            var w := Spill(h, f, pos, ss, se, Pow2(al), zz, eobRun);
            o.Refined? ==>
              && |o.zz| == 64
              && o.next == pos + o.control + NonZeros(zz, ss, se + 1)
              && (forall j :: ss <= j <= se ==> Stepped(zz[j], o.zz[j], Pow2(al)))
              && (OutsideKept(zz, o.zz, ss, se) <==> w == 0 || se == 63 || zz[se + 1] == w)
              && (w != 0 && se < 63 ==> o.zz[se + 1] == w && OutsideKept(zz, o.zz, ss, se + 1))
  {
    hide SymbolAt, Corrected, Bit, Skip, NonZeros, Window, Pow2, Newborn, Stepped, Weight, Coarse, Overrun, Band;
    var p1 := Pow2(al);
    WeightOf(al);
    if eobRun == 0 {
      BandReads(h, f, pos, ss, se, p1, zz, 0);
      BandSteps(h, f, pos, ss, se, p1, zz, 0);
    } else {
      EobSteps(f, pos, ss, se, p1, zz);
    }
  }

  /** A correction never changes a sign, but for the most negative 16-bit coefficient, which
      wraps around when its correction bit is one. */
  lemma CorrectionKeepsSign(v: int, bit: nat, al: nat)
    requires al <= 14 && v != 0 && v % (2 * Pow2(al)) == 0 && -0x8000 <= v < 0x8000 && bit <= 1
    ensures Grown(v, Corrected(v, bit, Pow2(al)), Pow2(al)) <==> !(v == -0x8000 && bit == 1)
  {
    hide Pow2;
    WeightOf(al);
    EvenQuotient(v, Pow2(al));
    if v != -0x8000 {
      CorrectedGrows(v, bit, Pow2(al));
    }
  }

  /** A zero run that passes the end of its band: on input that begins with two bytes 0, with a
      table of the one code word 0 for "one zero coefficient, then a new one", a scan of coefficient
      1 alone changes coefficient 2. */
  lemma OverrunWritesOutside(input: seq<byte>, flag: nat, vals: seq<byte>, zz: seq<int>)
    requires |vals| == 256 && vals[0] == 0x11 && |zz| == 64 && forall j :: 0 <= j < 64 ==> zz[j] == 0
    requires |input| >= 2 && input[0] == input[1] == 0
    ensures Spec([1], vals).Ok()
    ensures Refine(Spec([1], vals), EntropyStream(input, flag), 0, 1, 1, 1, zz, 0) == Refined(zz[2 := -1], 2, 0, 2)
    ensures !OutsideKept(zz, zz[2 := -1], 1, 1)
  {
    BeginsWithZeros(input, flag);
    hide EntropyStream, Refine;
    Overruns(EntropyStream(input, flag), vals, zz);
  }

  lemma BeginsWithZeros(input: seq<byte>, flag: nat)
    requires |input| >= 2 && input[0] == input[1] == 0
    ensures EntropyStream(input, flag)(0) == EntropyStream(input, flag)(1) == 0
  {
    OctetPlain(input, flag, 0);
    OctetPlain(input[1..], flag, 0);
  }

  lemma Overruns(f: nat -> byte, vals: seq<byte>, zz: seq<int>)
    requires |vals| == 256 && vals[0] == 0x11 && |zz| == 64 && forall j :: 0 <= j < 64 ==> zz[j] == 0
    requires f(0) == f(1) == 0
    ensures Spec([1], vals).Ok()
    ensures Refine(Spec([1], vals), f, 0, 1, 1, 1, zz, 0) == Refined(zz[2 := -1], 2, 0, 2)
    ensures !OutsideKept(zz, zz[2 := -1], 1, 1)
  {
    hide Window, Bit, SymbolAt, Corrected, Kraft, Begins, Pow2;
    var h := Spec([1], vals);
    OneCode(f);
    SymbolAtCode(h, f, 0, 0);
    ZeroBit(f, 1);
    RunOfOne(f, zz);
    assert SymbolAt(h, f, 0) == (0x11, 1);
    assert Band(h, f, 2, 3, 1, 1, zz[2 := -1], 2) == Refined(zz[2 := -1], 2, 0, 2);
    assert Band(h, f, 0, 1, 1, 1, zz, 0) == Band(h, f, 2, 3, 1, 1, zz[2 := -1], 2);
    assert zz[2 := -1][2] == -1;
  }

  lemma RunOfOne(f: nat -> byte, zz: seq<int>)
    requires |zz| == 64 && zz[1] == 0
    ensures Skip(f, 2, 1, 1, 1, 1, zz) == Skipped(zz, 2, 2)
  {
    hide Corrected, Bit;
    assert Skip(f, 2, 2, 1, 1, 0, zz) == Skipped(zz, 2, 2);
  }

  lemma OneCode(f: nat -> byte)
    requires f(0) == f(1) == 0
    ensures Kraft([1]) && Begins([1], 0, Window(f, 0, 16))
  {
    hide Window, Pow2;
    var lens: Lengths := [1];
    Pow2Small();
    WindowTwoOctets(f, 0);
    assert Start(lens, 0) == 0 && Start(lens, 1) == Unit(1);
  }

  lemma ZeroBit(f: nat -> byte, i: nat)
    requires f(i / 8) == 0
    ensures Bit(f, i) == 0
  {
    hide Pow2;
  }

  // ---- the method ----

  /** The correction of one coefficient: a bit is read only if it is not zero. */
  method RefineCoefficient(r: BitReader, p: array<int>, at: nat, k: nat, p1: nat, ghost zz: seq<int>)
    requires r.InEntropySegment() && at + 64 <= p.Length && |zz| == 64 && k < 64 && p1 > 0
    requires p[at..at + 64] == InPlace(zz) && zz[k] != 0
    modifies r, p
    ensures r.InEntropySegment() && r.octets == old(r.octets) && r.source == old(r.source) && r.Position() == old(r.Position()) + 1
    ensures 0 <= old(r.Position())
    ensures p[at..at + 64] == InPlace(zz[k := Corrected(zz[k], Bit(r.octets, old(r.Position())), p1)])
    ensures forall i :: 0 <= i < p.Length && !(at <= i < at + 64) ==> p[i] == old(p[i])
  {
    hide Zag, Unzag, InPlace, Pow2, Buffer, Entropy, Bit;
    r.PositionIsNat();
    InPlaceAt(p[at..at + 64], zz, k);
    OneBit(r.octets, r.Position());
    var i := at + Zag(k);
    var bit := r.GetBitsNoMarkers(1);
    if bit != 0 {
      if p[i] / p1 % 2 == 0 {
        if p[i] >= 0 {
          Put(p, at, k, Wrap16(p[i] + p1), zz);
        } else {
          Put(p, at, k, Wrap16(p[i] - p1), zz);
        }
      }
    }
    assert zz[k := zz[k]] == zz;
  }

  /** Writes the coefficient of zig-zag position k. */
  method Put(p: array<int>, at: nat, k: nat, v: int, ghost zz: seq<int>)
    requires at + 64 <= p.Length && |zz| == 64 && k < 64 && p[at..at + 64] == InPlace(zz)
    modifies p
    ensures p[at..at + 64] == InPlace(zz[k := v])
    ensures forall i :: 0 <= i < p.Length && !(at <= i < at + 64) ==> p[i] == old(p[i])
  {
    hide Zag, Unzag, InPlace;
    Slot(p[..], at, Zag(k), v);
    InPlaceUpdate(zz, k, v);
    p[at + Zag(k)] := v;
  }

  lemma InPlaceUpdate(zz: seq<int>, k: nat, v: int)
    requires |zz| == 64 && k < 64
    ensures InPlace(zz)[Zag(k) := v] == InPlace(zz[k := v])
  {
    hide Zag, Unzag;
    var b, b' := InPlace(zz)[Zag(k) := v], InPlace(zz[k := v]);
    forall i | 0 <= i < 64
      ensures b[i] == b'[i]
    {
      ZagUnzag(i);
      ZagUnzag(k);
    }
  }

  lemma OneBit(f: nat -> byte, pos: nat)
    ensures Window(f, pos, 1) == Bit(f, pos) <= 1
  {
    WindowNone(f, pos);
  }

  lemma SkipStep(f: nat -> byte, pos: nat, k: nat, se: nat, p1: nat, r: nat, zz: seq<int>)
    requires |zz| == 64 && se < 64 && p1 > 0
    ensures Skip(f, pos, k, se, p1, r, zz) ==
            if k > se then Skipped(zz, k, pos)
            else if zz[k] != 0 then Skip(f, pos + 1, k + 1, se, p1, r, zz[k := Corrected(zz[k], Bit(f, pos), p1)])
            else if r == 0 then Skipped(zz, k, pos)
            else Skip(f, pos, k + 1, se, p1, r - 1, zz)
  {
    hide Corrected, Bit;
  }

  /** A zero run: passes run zero coefficients, correcting the non-zero ones it meets. */
  method SkipRun(r: BitReader, p: array<int>, at: nat, k0: nat, se: nat, p1: nat, run: nat, ghost zz0: seq<int>)
    returns (k: nat, ghost zz: seq<int>)
    requires r.InEntropySegment() && at + 64 <= p.Length && |zz0| == 64 && k0 <= se < 64 && p1 > 0
    requires p[at..at + 64] == InPlace(zz0) && 0 <= r.Position()
    modifies r, p
    ensures r.InEntropySegment() && r.octets == old(r.octets) && r.source == old(r.source) && 0 <= r.Position()
    ensures |zz| == 64 && p[at..at + 64] == InPlace(zz)
    ensures Skip(r.octets, old(r.Position()), k0, se, p1, run, zz0) == Skipped(zz, k, r.Position())
    ensures forall i :: 0 <= i < p.Length && !(at <= i < at + 64) ==> p[i] == old(p[i])
  {
    hide Zag, Unzag, InPlace, Buffer, Entropy, Bit, Corrected, Skip;
    ghost var f := r.octets;
    var left := run as int;
    k, zz := k0, zz0;
    while k <= se
      invariant |zz| == 64 && k <= se + 1 && 0 <= left
      invariant r.InEntropySegment() && r.octets == f && r.source == old(r.source) && 0 <= r.Position()
      invariant p[at..at + 64] == InPlace(zz)
      invariant Skip(f, old(r.Position()), k0, se, p1, run, zz0) == Skip(f, r.Position(), k, se, p1, left, zz)
      invariant forall i :: 0 <= i < p.Length && !(at <= i < at + 64) ==> p[i] == old(p[i])
    {
      SkipStep(f, r.Position(), k, se, p1, left, zz);
      InPlaceAt(p[at..at + 64], zz, k);
      if p[at + Zag(k)] != 0 {
        ghost var pos := r.Position();
        RefineCoefficient(r, p, at, k, p1, zz);
        zz := zz[k := Corrected(zz[k], Bit(f, pos), p1)];
      } else {
        left := left - 1;
        if left < 0 {
          return;
        }
      }
      k := k + 1;
    }
    SkipStep(f, r.Position(), k, se, p1, left, zz);
  }

  /** The rest of a band in an end-of-band run. */
  method SkipToEnd(r: BitReader, p: array<int>, at: nat, k0: nat, se: nat, p1: nat, ghost zz0: seq<int>)
    returns (ghost s: Skipped)
    requires r.InEntropySegment() && at + 64 <= p.Length && |zz0| == 64 && se < 64 && p1 > 0
    requires p[at..at + 64] == InPlace(zz0) && 0 <= r.Position()
    modifies r, p
    ensures r.InEntropySegment() && r.octets == old(r.octets) && r.source == old(r.source)
    ensures s == Skip(r.octets, old(r.Position()), k0, se, p1, 64, zz0)
    ensures |s.zz| == 64 && p[at..at + 64] == InPlace(s.zz) && r.Position() == s.next
    ensures forall i :: 0 <= i < p.Length && !(at <= i < at + 64) ==> p[i] == old(p[i])
  {
    hide Zag, Unzag, InPlace, Buffer, Entropy, Bit, Corrected, Skip;
    ghost var f := r.octets;
    s := Skip(f, r.Position(), k0, se, p1, 64, zz0);
    var k := k0;
    ghost var zz, left: nat := zz0, 64;
    while k <= se
      invariant |zz| == 64 && (k <= se ==> se + 1 - k <= left)
      invariant r.InEntropySegment() && r.octets == f && r.source == old(r.source) && 0 <= r.Position()
      invariant p[at..at + 64] == InPlace(zz)
      invariant s == Skip(f, r.Position(), k, se, p1, left, zz)
      invariant forall i :: 0 <= i < p.Length && !(at <= i < at + 64) ==> p[i] == old(p[i])
    {
      SkipStep(f, r.Position(), k, se, p1, left, zz);
      InPlaceAt(p[at..at + 64], zz, k);
      if p[at + Zag(k)] != 0 {
        ghost var pos := r.Position();
        RefineCoefficient(r, p, at, k, p1, zz);
        zz := zz[k := Corrected(zz[k], Bit(f, pos), p1)];
      } else {
        left := left - 1;
      }
      k := k + 1;
    }
    SkipStep(f, r.Position(), k, se, p1, left, zz);
  }

  lemma BandStep(h: Spec, f: nat -> byte, pos: nat, k: nat, se: nat, p1: nat, zz: seq<int>, control: nat)
    requires h.Ok() && |zz| == 64 && se < 64 && p1 > 0
    ensures Band(h, f, pos, k, se, p1, zz, control) ==
            if k > se then Refined(zz, pos, 0, control)
            else
              var (symbol, next) := SymbolAt(h, f, pos);
              var r: nat, s: nat := symbol / 16, symbol % 16;
              if s > 1 then Refused
              else if s == 0 && r != 15 then
                InEobRun(f, next + r, k, se, p1, zz, EobLength(f, next, r), control + (next - pos) + r)
              else
                var after := Skip(f, next + s, k, se, p1, r, zz);
                Band(h, f, after.next, after.k + 1, se, p1, Placed(after.zz, after.k, s, Newborn(Bit(f, next), p1)),
                     control + (next - pos) + s)
  {
    hide SymbolAt, Bit, Skip, Newborn, InEobRun, EobLength;
  }

  /** The coefficients a band starts with that its own code words code: up to the end of the
      band or the code word of an end-of-band run. */
  method DecodeBand(r: BitReader, t: HuffTables, ghost h: Spec, p: array<int>, at: nat, ss: nat, se: nat, p1: nat, ghost zz0: seq<int>)
    returns (ok: bool, k: nat, eobRun: nat, ghost zz: seq<int>, ghost control: nat)
    requires h.Ok() && h.Distinct() && t.Represents(h.lens, h.vals) && r.InEntropySegment()
    requires at + 64 <= p.Length && |zz0| == 64 && se < 64 && p1 > 0 && Disjoint(p, t)
    requires p[at..at + 64] == InPlace(zz0) && 0 <= r.Position()
    modifies r, p
    ensures r.InEntropySegment() && r.octets == old(r.octets) && r.source == old(r.source) && 0 <= r.Position()
    ensures |zz| == 64 && (ok ==> p[at..at + 64] == InPlace(zz))
    ensures Band(h, r.octets, old(r.Position()), ss, se, p1, zz0, 0) ==
            if !ok then Refused
            else if eobRun > 0 then InEobRun(r.octets, r.Position(), k, se, p1, zz, eobRun, control)
            else Refined(zz, r.Position(), 0, control)
    ensures forall i :: 0 <= i < p.Length && !(at <= i < at + 64) ==> p[i] == old(p[i])
  {
    hide Zag, Unzag, InPlace, Buffer, Entropy, Bit, Corrected, Skip, Band, InEobRun, Window, Pow2, SymbolAt, Inner, Begins;
    hide Covers, SizesOf, Trie.Ok, Trie.Stored, Trie.Looks, Placed, Newborn, Wrap16;
    ghost var f := r.octets;
    k, eobRun, zz, control := ss, 0, zz0, 0;
    while k <= se
      invariant |zz| == 64
      invariant r.InEntropySegment() && r.octets == f && r.source == old(r.source) && 0 <= r.Position()
      invariant t.Represents(h.lens, h.vals)
      invariant p[at..at + 64] == InPlace(zz)
      invariant Band(h, f, old(r.Position()), ss, se, p1, zz0, 0) == Band(h, f, r.Position(), k, se, p1, zz, control)
      invariant forall i :: 0 <= i < p.Length && !(at <= i < at + 64) ==> p[i] == old(p[i])
      decreases se + 1 - k
    {
      BandStep(h, f, r.Position(), k, se, p1, zz, control);
      ghost var was := r.Position();
      var symbol := HuffDecode(r, t, h);
      ghost var next := r.Position();
      var run, s := symbol / 16, symbol % 16;
      var v := 0;
      if s != 0 {
        if s != 1 {
          return false, k, 0, zz, control;
        }
        OneBit(f, r.Position());
        NewbornOf(f, r.Position(), p1);
        var bit := r.GetBitsNoMarkers(1);
        v := if bit != 0 then Wrap16(p1) else Wrap16(-(p1 as int));
      } else if run != 15 {
        eobRun := Pow2(run);
        WindowNone(f, r.Position());
        if run != 0 {
          var more := r.GetBitsNoMarkers(run);
          eobRun := eobRun + more;
        }
        control := control + (next - was) + run;
        return true, k, eobRun, zz, control;
      }
      k, zz := SkipRun(r, p, at, k, se, p1, run, zz);
      if s != 0 && k < 64 {
        Put(p, at, k, v, zz);
      }
      assert s == 1 ==> v == Newborn(Bit(f, next), p1);
      PlacedIs(zz, k, s, v);
      PlacedIs(zz, k, s, Newborn(Bit(f, next), p1));
      zz := Placed(zz, k, s, v);
      control := control + (next - was) + s;
      k := k + 1;
    }
    BandStep(h, f, r.Position(), k, se, p1, zz, control);
    ok := true;
  }

  lemma NewbornOf(f: nat -> byte, pos: nat, p1: nat)
    ensures Newborn(Bit(f, pos), p1) == if Bit(f, pos) != 0 then Wrap16(p1) else Wrap16(-(p1 as int))
  {
    hide Bit;
  }

  lemma PlacedIs(zz: seq<int>, k: nat, s: nat, v: int)
    requires |zz| == 64
    ensures Placed(zz, k, s, v) == if s != 0 && k < 64 then zz[k := v] else zz
  {
  }

  /** One block of a refinement scan, corrected in place. */
  method DecodeBlockAcRefine(r: BitReader, t: HuffTables, ghost h: Spec, p: array<int>, at: nat, ss: nat, se: nat, al: nat,
                             eobRun0: nat, ghost zz0: seq<int>)
    returns (ok: bool, eobRun: nat)
    requires h.Ok() && h.Distinct() && t.Represents(h.lens, h.vals) && r.InEntropySegment()
    requires at + 64 <= p.Length && |zz0| == 64 && se < 64 && Disjoint(p, t)
    requires p[at..at + 64] == InPlace(zz0)
    modifies r, p
    ensures r.InEntropySegment() && r.octets == old(r.octets) && r.source == old(r.source)
    ensures var o := Refine(h, r.octets, old(r.Position()), ss, se, Pow2(al), zz0, eobRun0);
            && ok == o.Refined?
            && (ok ==>
                 && r.Position() == o.next && eobRun == o.eobRun
                 && |o.zz| == 64 && p[at..at + 64] == InPlace(o.zz))
    ensures forall i :: 0 <= i < p.Length && !(at <= i < at + 64) ==> p[i] == old(p[i])
  {
    hide InPlace, Skip, Band, Pow2, Entropy, Buffer;
    hide Covers, SizesOf, Trie.Ok, Trie.Stored, Trie.Looks, BitReader.InEntropySegment;
    r.PositionIsNat();
    var p1 := Pow2(al);
    var k: nat := ss;
    ok, eobRun := true, eobRun0;
    ghost var zz := zz0;
    if eobRun == 0 {
      ghost var control;
      ok, k, eobRun, zz, control := DecodeBand(r, t, h, p, at, ss, se, p1, zz);
      if !ok {
        return;
      }
    }
    if eobRun > 0 {
      ghost var s := SkipToEnd(r, p, at, k, se, p1, zz);
      eobRun := eobRun - 1;
    }
  }
}
