/** A band of coefficients sent by successive approximation, ITU-T T.81 section G.1.2: first all but the
    lowest bits, then one bit more in each refinement scan; in the end decoding has every coefficient. */
module ProgressiveEncoder {
  import opened Arith
  import opened BitStream
  import opened HuffmanDecode
  import opened BlockDecoder
  import opened AcRefine
  import opened BitCode
  import opened BlockEncoder
  import FirstEncoder
  import RefineEncoder

  /** The point transform of T.81 section G.1.2.1: a division that rounds toward zero. */
  function Cut(c: int, p: nat): int
    requires p > 0
  {
    if c >= 0 then c / p else -(-c / p)
  }

  /** A coefficient without its bits below p. */
  function Kept(c: int, p: nat): int
    requires p > 0
  {
    Cut(c, p) * p
  }

  lemma KeptBounds(c: int, p: nat)
    requires p > 0
    ensures if c >= 0 then 0 <= Kept(c, p) <= c < Kept(c, p) + p else Kept(c, p) - p < c <= Kept(c, p) <= 0
    ensures Kept(c, p) % p == 0
    ensures Cut(c, p) == 0 <==> Kept(c, p) == 0
  {
    var q := Magnitude(c) / p;
    QuotientBounds(Magnitude(c), p);
    Opposite(q, p);
    CutIs(c, p);
    hide Cut;
    DivExact(Cut(c, p), p);
    NonZeroProduct(Cut(c, p), p);
  }

  lemma CutIs(c: int, p: nat)
    requires p > 0
    ensures Cut(c, p) == if c >= 0 then Magnitude(c) / p else -(Magnitude(c) / p)
  {
  }

  lemma QuotientBounds(m: nat, p: nat)
    requires p > 0
    ensures m / p * p <= m < m / p * p + p
  {
  }

  lemma Opposite(a: int, b: int)
    ensures (-a) * b == -(a * b)
  {
  }

  lemma NonZeroProduct(a: int, b: nat)
    requires b > 0
    ensures a * b == 0 <==> a == 0
  {
  }

  /** One bit more moves a coefficient by at most that bit, away from zero. */
  lemma KeptStep(c: int, p: nat)
    requires p > 0
    ensures Stepped(Kept(c, 2 * p), Kept(c, p), p)
  {
    KeptBounds(c, p);
    KeptBounds(c, 2 * p);
    var a, b := Kept(c, 2 * p), Kept(c, p);
    hide Kept, Cut;
    EvenIsMultiple(a, p);
    TwoMultiples(a, b, p);
  }

  lemma EvenIsMultiple(a: int, p: nat)
    requires p > 0 && a % (2 * p) == 0
    ensures a % p == 0
  {
    Multiple(a, 2 * p);
    MulAssoc(a / (2 * p), 2, p);
    DivExact(a / (2 * p) * 2, p);
  }

  /** Multiples of p that are less than two steps apart are the same, or one step apart. */
  lemma TwoMultiples(a: int, b: int, p: nat)
    requires p > 0 && a % p == 0 && b % p == 0 && -2 * p < b - a < 2 * p
    ensures b == a || b == a + p || b == a - p
  {
    if a < b {
      RoomBelow(a, b, p);
      if a + p < b {
        ModAdd(a, 1, p);
        RoomBelow(a + p, b, p);
      }
    } else if b < a {
      RoomBelow(b, a, p);
      if b + p < a {
        ModAdd(b, 1, p);
        RoomBelow(b + p, a, p);
      }
    }
  }

  /** In the end nothing is missing. */
  lemma KeptAll(c: int)
    ensures Kept(c, 1) == c
  {
  }

  // ---- blocks ----

  /** The band of every block has arrived down to the bit of weight p. */
  ghost predicate Arrived(zzs: seq<seq<int>>, cs: seq<seq<int>>, ss: nat, se: nat, p: nat) {
    && p > 0 && ss <= se < 64 && |zzs| == |cs|
    && forall i :: 0 <= i < |zzs| ==> |zzs[i]| == |cs[i]| == 64 && BandArrived(zzs[i], cs[i], ss, se, p)
  }

  ghost predicate BandArrived(zz: seq<int>, c: seq<int>, ss: nat, se: nat, p: nat)
    requires |zz| == |c| == 64 && p > 0
  {
    forall j :: ss <= j <= se && j < 64 ==> zz[j] == Kept(c[j], p)
  }

  /** What a first scan sends. */
  function CutBlock(c: seq<int>, p: nat): (b: seq<int>)
    requires p > 0
    ensures |b| == |c|
  {
    seq(|c|, (j: nat) requires j < |c| => Cut(c[j], p))
  }

  lemma FirstArrives(zz: seq<int>, was: seq<int>, c: seq<int>, ss: nat, se: nat, p: nat)
    requires |zz| == |was| == |c| == 64 && Codable(c) && p > 0 && ss <= se < 64
    requires FirstEncoder.Written(zz, was, CutBlock(c, p), ss, se + 1, p) && forall j :: ss <= j <= se ==> was[j] == 0
    ensures BandArrived(zz, c, ss, se, p)
  {
    hide Cut, Kept, Wrap16, Category;
    forall j | ss <= j <= se
      ensures zz[j] == Kept(c[j], p)
    {
      SmallNumber(c[j]);
      KeptBounds(c[j], p);
      KeptIs(c[j], p);
      WrapsAre(Kept(c[j], p));
    }
  }

  lemma KeptIs(c: int, p: nat)
    requires p > 0
    ensures Kept(c, p) == Cut(c, p) * p
  {
  }

  /** What a refinement scan makes of a block that has arrived down to the bit above. */
  ghost predicate Refines(ch: RefineEncoder.Change, zz: seq<int>, c: seq<int>, ss: nat, se: nat, p: nat)
    requires |zz| == |c| == 64 && p > 0
  {
    ch.was == zz && |ch.now| == 64 && BandArrived(ch.now, c, ss, se, p)
  }

  /** An encoder may send that. */
  lemma CanRefine(ch: RefineEncoder.Change, zz: seq<int>, c: seq<int>, ss: nat, se: nat, p: nat)
    requires |zz| == |c| == 64 && Codable(c) && Weight(p) && ss <= se < 64
    requires BandArrived(zz, c, ss, se, 2 * p) && Refines(ch, zz, c, ss, se, p)
    ensures RefineEncoder.Refinable(ch.was, ch.now, ss, se + 1, p)
  {
    hide Cut, Kept, Category, Stepped;
    forall j | ss <= j <= se
      ensures Stepped(ch.was[j], ch.now[j], p) && ch.was[j] % (2 * p) == 0 && -0x8000 < ch.was[j] < 0x8000
    {
      SmallNumber(c[j]);
      KeptBounds(c[j], 2 * p);
      KeptStep(c[j], p);
    }
  }

  // ---- all scans ----

  /** The data of one refinement scan: its table, where it is, and what the encoder sends. */
  datatype Scan = Scan(h: Spec, f: nat -> byte, pos: nat, runs: seq<seq<RefineEncoder.Change>>)

  /** The scan codes, from the blocks zzs, the bit of weight p of every coefficient of the band. */
  ghost predicate Sends(s: Scan, zzs: seq<seq<int>>, cs: seq<seq<int>>, ss: nat, se: nat, p: nat) {
    && ss <= se < 64 && p > 0 && s.h.Ok() && RefineEncoder.AllRuns(s.runs, ss, se, p)
    && AllHas(s.h, RefineEncoder.ScanItems(s.runs, ss, se, p))
    && Reads(s.f, s.pos, ItemsBits(s.h, RefineEncoder.ScanItems(s.runs, ss, se, p)))
    && var changes := FirstEncoder.Blocks(s.runs);
       && |changes| == |zzs| == |cs|
       && forall i :: 0 <= i < |zzs| ==> |zzs[i]| == |cs[i]| == 64 && Refines(changes[i], zzs[i], cs[i], ss, se, p)
  }

  ghost predicate Fits(zzs: seq<seq<int>>) {
    RefineEncoder.Fits(zzs)
  }

  /** All refinement scans decoded, the first one with the bit of weight 2^(al-1). */
  ghost function Decoded(scans: seq<Scan>, zzs: seq<seq<int>>, ss: nat, se: nat, al: nat): (r: FirstEncoder.Many)
    requires |scans| == al && se < 64 && forall i :: 0 <= i < |scans| ==> scans[i].h.Ok()
    decreases al
  {
    if al == 0 then FirstEncoder.Many(zzs, 0, 0)
    else if !Fits(zzs) then FirstEncoder.Bad
    else
      var s := scans[0];
      match RefineEncoder.RefineBlocks(s.h, s.f, s.pos, ss, se, Pow2(al - 1), zzs, 0)
      case Bad => FirstEncoder.Bad
      case Many(next, _, _) => Decoded(scans[1..], next, ss, se, al - 1)
  }

  /** Each scan codes the next bit of what the scans before it have left. */
  ghost predicate AllSend(scans: seq<Scan>, zzs: seq<seq<int>>, cs: seq<seq<int>>, ss: nat, se: nat, al: nat)
    requires |scans| == al && se < 64
    decreases al
  {
    al > 0 ==>
      var s := scans[0];
      && Sends(s, zzs, cs, ss, se, Pow2(al - 1)) && Fits(zzs)
      && var o := RefineEncoder.RefineBlocks(s.h, s.f, s.pos, ss, se, Pow2(al - 1), zzs, 0);
         (o.Many? ==> AllSend(scans[1..], o.zzs, cs, ss, se, al - 1))
  }

  /** One refinement scan: every block arrives with one bit more. */
  lemma OneScan(s: Scan, zzs: seq<seq<int>>, cs: seq<seq<int>>, ss: nat, se: nat, p: nat) returns (next: seq<seq<int>>, end: nat)
    requires Sends(s, zzs, cs, ss, se, p) && Fits(zzs) && s.h.Ok() && ss <= se < 64 && p > 0
    ensures RefineEncoder.RefineBlocks(s.h, s.f, s.pos, ss, se, p, zzs, 0) == FirstEncoder.Many(next, end, 0)
    ensures Arrived(next, cs, ss, se, p)
  {
    hide Spec.Ok, AllHas, Reads, ItemsBits, RefineEncoder.ScanItems, RefineEncoder.RefineBlocks, RefineEncoder.IsRefineRun, Kept;
    var changes := FirstEncoder.Blocks(s.runs);
    assert RefineEncoder.Before(changes) == zzs;
    next := RefineEncoder.ScanDecodes(s.h, s.f, s.pos, ss, se, p, s.runs);
    end := s.pos + |ItemsBits(s.h, RefineEncoder.ScanItems(s.runs, ss, se, p))|;
    forall i | 0 <= i < |next|
      ensures |next[i]| == |cs[i]| == 64 && BandArrived(next[i], cs[i], ss, se, p)
    {
      assert RefineEncoder.UpTo(next[i], changes[i].was, changes[i].now, ss, se + 1);
      assert Refines(changes[i], zzs[i], cs[i], ss, se, p);
    }
  }

  /** After the last refinement scan every block has the coefficients of its band, bit by bit. */
  lemma {:induction false} AllScansArrive(scans: seq<Scan>, zzs: seq<seq<int>>, cs: seq<seq<int>>, ss: nat, se: nat, al: nat)
    requires |scans| == al && ss <= se < 64 && (forall i :: 0 <= i < |scans| ==> scans[i].h.Ok())
    requires Arrived(zzs, cs, ss, se, Pow2(al)) && AllSend(scans, zzs, cs, ss, se, al)
    ensures Decoded(scans, zzs, ss, se, al).Many? && Arrived(Decoded(scans, zzs, ss, se, al).zzs, cs, ss, se, 1)
    decreases al
  {
    hide Sends, Arrived, Spec.Ok, RefineEncoder.RefineBlocks, Fits;
    if al == 0 {
      Pow2Small();
    } else {
      var s := scans[0];
      SendsIs(s, zzs, cs, ss, se, Pow2(al - 1));
      var next, end := OneScan(s, zzs, cs, ss, se, Pow2(al - 1));
      AllScansArrive(scans[1..], next, cs, ss, se, al - 1);
    }
  }

  lemma SendsIs(s: Scan, zzs: seq<seq<int>>, cs: seq<seq<int>>, ss: nat, se: nat, p: nat)
    requires Sends(s, zzs, cs, ss, se, p)
    ensures s.h.Ok() && ss <= se < 64 && p > 0
  {
  }

  /** And that is the coefficient itself. */
  lemma WholeBand(zzs: seq<seq<int>>, cs: seq<seq<int>>, ss: nat, se: nat)
    requires Arrived(zzs, cs, ss, se, 1)
    ensures forall i, j :: 0 <= i < |zzs| && ss <= j <= se ==> |zzs[i]| == |cs[i]| == 64 && zzs[i][j] == cs[i][j]
  {
    hide Kept;
    forall i, j | 0 <= i < |zzs| && ss <= j <= se
      ensures |zzs[i]| == |cs[i]| == 64 && zzs[i][j] == cs[i][j]
    {
      assert BandArrived(zzs[i], cs[i], ss, se, 1);
      KeptAll(cs[i][j]);
    }
  }

  /** The first scan: every block, zero before, arrives without its lowest bits. */
  lemma FirstScan(h: Spec, f: nat -> byte, pos: nat, ss: nat, se: nat, p: nat, olds: seq<seq<int>>, cs: seq<seq<int>>, runs: seq<seq<seq<int>>>)
    returns (zzs: seq<seq<int>>)
    requires h.Ok() && ss <= se < 64 && p > 0 && FirstEncoder.AllRuns(runs, ss, se) && |olds| == |cs| == |FirstEncoder.Blocks(runs)|
    requires forall i :: 0 <= i < |cs| ==> |olds[i]| == |cs[i]| == 64 && Codable(cs[i]) && FirstEncoder.Blocks(runs)[i] == CutBlock(cs[i], p)
    requires forall i, j :: 0 <= i < |olds| && ss <= j <= se ==> olds[i][j] == 0
    requires AllHas(h, FirstEncoder.ScanItems(runs, ss, se)) && Reads(f, pos, ItemsBits(h, FirstEncoder.ScanItems(runs, ss, se)))
    ensures FirstEncoder.FirstBlocks(h, f, pos, ss, se, p, olds, 0) ==
            FirstEncoder.Many(zzs, pos + |ItemsBits(h, FirstEncoder.ScanItems(runs, ss, se))|, 0)
    ensures Arrived(zzs, cs, ss, se, p)
  {
    hide Spec.Ok, AllHas, Reads, ItemsBits, FirstEncoder.ScanItems, FirstEncoder.FirstBlocks, FirstEncoder.IsRun, FirstEncoder.Written, Codable, CutBlock;
    zzs := FirstEncoder.ScanDecodes(h, f, pos, ss, se, p, olds, runs);
    hide BandArrived;
    forall i | 0 <= i < |zzs|
      ensures |zzs[i]| == |cs[i]| == 64 && BandArrived(zzs[i], cs[i], ss, se, p)
    {
      assert forall j :: ss <= j <= se ==> olds[i][j] == 0;
      FirstArrives(zzs[i], olds[i], cs[i], ss, se, p);
    }
  }
}
