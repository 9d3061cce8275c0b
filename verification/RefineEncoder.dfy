/** The encoder's side of an AC refinement scan, ITU-T T.81 section G.1.2.3, with end-of-band runs over
    several blocks; and that decoding gives the refined coefficients. */
module RefineEncoder {
  import opened Arith
  import opened BitStream
  import opened HuffmanDecode
  import opened BlockDecoder
  import opened AcRefine
  import opened BitCode
  import opened BlockEncoder
  import opened FirstEncoder

  // ---- what is sent for a band ----

  /** The band can be refined from was to new: coefficients that are not zero keep their sign and
      grow by at most one bit, and zeros become one such bit or stay. */
  ghost predicate Refinable(was: seq<int>, now: seq<int>, ss: nat, end: nat, p1: nat) {
    && |was| == |now| == 64 && ss <= end <= 64 && Weight(p1) && Coarse(was, ss, end, p1)
    && forall j :: ss <= j < end ==> Stepped(was[j], now[j], p1)
  }

  predicate Fresh(was: seq<int>, now: seq<int>, j: nat)
    requires |was| == |now| == 64 && j < 64
  {
    was[j] == 0 && now[j] != 0
  }

  /** The next coefficient that becomes non-zero. */
  function NextFresh(was: seq<int>, now: seq<int>, k: nat, end: nat): (m: nat)
    requires |was| == |now| == 64 && k <= end <= 64
    ensures k <= m <= end && (forall j :: k <= j < m ==> !Fresh(was, now, j)) && (m < end ==> Fresh(was, now, m))
    decreases end - k
  {
    if k == end || Fresh(was, now, k) then k else NextFresh(was, now, k + 1, end)
  }

  /** How many coefficients were zero. */
  function Zeros(was: seq<int>, k: nat, m: nat): (n: nat)
    requires |was| == 64 && k <= m <= 64
    ensures n <= m - k
    decreases m - k
  {
    if k == m then 0 else Zeros(was, k + 1, m) + if was[k] == 0 then 1 else 0
  }

  /** The place of zero number n from position k on, of more than that. */
  function ZeroPlace(was: seq<int>, k: nat, m: nat, n: nat): (z: nat)
    requires |was| == 64 && k <= m <= 64 && n < Zeros(was, k, m)
    ensures k <= z < m && was[z] == 0 && Zeros(was, k, z) == n
    decreases m - k
  {
    if was[k] != 0 then ZeroPlace(was, k + 1, m, n) else if n == 0 then k else ZeroPlace(was, k + 1, m, n - 1)
  }

  /** The correction bits of the coefficients that were not zero: one if the magnitude grows. */
  function Corrections(was: seq<int>, now: seq<int>, k: nat, m: nat): seq<bool>
    requires |was| == |now| == 64 && k <= m <= 64
    decreases m - k
  {
    if k == m then [] else (if was[k] != 0 then [now[k] != was[k]] else []) + Corrections(was, now, k + 1, m)
  }

  /** The items of a band: each coefficient that becomes non-zero with its sign, one for positive,
      and the number of zeros before it, sixteen of which take a ZRL; behind each code word come the
      correction bits of the coefficients passed. */
  function FreshItems(was: seq<int>, now: seq<int>, k: nat, end: nat): seq<Item>
    requires |was| == |now| == 64 && k <= end <= 64
    decreases end - k
  {
    var t := NextFresh(was, now, k, end);
    if t == end then []
    else if Zeros(was, k, t) > 15 then
      var z := ZeroPlace(was, k, t, 15);
      [Item(ZRL, Corrections(was, now, k, z))] + FreshItems(was, now, z + 1, end)
    else
      [Item(16 * Zeros(was, k, t) + 1, [now[t] > 0] + Corrections(was, now, k, t))] + FreshItems(was, now, t + 1, end)
  }

  /** The position behind the last coefficient that becomes non-zero, k if there is none. */
  function BehindFresh(was: seq<int>, now: seq<int>, k: nat, end: nat): (m: nat)
    requires |was| == |now| == 64 && k <= end <= 64
    ensures k <= m <= end && (forall j :: m <= j < end ==> !Fresh(was, now, j)) && (m > k ==> Fresh(was, now, m - 1))
    decreases end - k
  {
    if k == end || Fresh(was, now, end - 1) then end else BehindFresh(was, now, k, end - 1)
  }

  // ---- a block that is refined up to some position ----

  ghost predicate UpTo(zz: seq<int>, was: seq<int>, now: seq<int>, ss: nat, k: nat)
    requires |zz| == |was| == |now| == 64
  {
    forall j :: 0 <= j < 64 ==> zz[j] == if ss <= j < k then now[j] else was[j]
  }

  /** One coefficient takes its correction bit. */
  lemma OneCorrected(f: nat -> byte, pos: nat, was: seq<int>, now: seq<int>, ss: nat, k: nat, end: nat, p1: nat, zz: seq<int>)
    requires Refinable(was, now, ss, end, p1) && |zz| == |was| == |now| == 64 && ss <= k < end <= 64 && was[k] != 0 && p1 > 0
    requires UpTo(zz, was, now, ss, k) && (Bit(f, pos) == 1 <==> now[k] != was[k])
    ensures zz[k] == was[k] && Corrected(zz[k], Bit(f, pos), p1) == now[k]
    ensures UpTo(zz[k := Corrected(zz[k], Bit(f, pos), p1)], was, now, ss, k + 1)
  {
    BitBound(f, pos);
    assert Stepped(was[k], now[k], p1);
    CorrectedGrows(was[k], Bit(f, pos), p1);
    hide Corrected, Bit;
  }

  lemma ZeroPassed(was: seq<int>, now: seq<int>, ss: nat, k: nat, zz: seq<int>)
    requires |zz| == |was| == |now| == 64 && ss <= k < 64 && was[k] == 0 && now[k] == 0 && UpTo(zz, was, now, ss, k)
    ensures zz[k] == 0 && UpTo(zz, was, now, ss, k + 1)
  {
  }

  lemma CorrectionsStep(was: seq<int>, now: seq<int>, k: nat, m: nat, f: nat -> byte, pos: nat)
    requires |was| == |now| == 64 && k < m <= 64 && Reads(f, pos, Corrections(was, now, k, m))
    ensures was[k] != 0 ==> |Corrections(was, now, k, m)| == 1 + |Corrections(was, now, k + 1, m)|
    ensures was[k] != 0 ==> (Bit(f, pos) == 1 <==> now[k] != was[k]) && Reads(f, pos + 1, Corrections(was, now, k + 1, m))
    ensures was[k] == 0 ==> Corrections(was, now, k, m) == Corrections(was, now, k + 1, m)
  {
    hide Bit;
    if was[k] != 0 {
      ReadsSplit(f, pos, [now[k] != was[k]], Corrections(was, now, k + 1, m));
      assert Bit(f, pos + 0) == 1 <==> [now[k] != was[k]][0];
    } else {
      assert [] + Corrections(was, now, k + 1, m) == Corrections(was, now, k + 1, m);
    }
  }

  lemma SkipIs(f: nat -> byte, pos: nat, k: nat, se: nat, p1: nat, r: nat, zz: seq<int>)
    requires |zz| == 64 && se < 64 && p1 > 0
    ensures Skip(f, pos, k, se, p1, r, zz) ==
            if k > se then Skipped(zz, k, pos)
            else if zz[k] != 0 then Skip(f, pos + 1, k + 1, se, p1, r, zz[k := Corrected(zz[k], Bit(f, pos), p1)])
            else if r == 0 then Skipped(zz, k, pos)
            else Skip(f, pos, k + 1, se, p1, r - 1, zz)
  {
    hide Corrected, Bit;
  }

  /** A zero run stops at position m, where the zeros between are used up, or at the end of the band. */
  lemma {:induction false} SkipStops(f: nat -> byte, pos: nat, was: seq<int>, now: seq<int>, ss: nat, k: nat, m: nat, se: nat, p1: nat, r: nat, zz: seq<int>)
    returns (zz': seq<int>)
    requires |zz| == |was| == |now| == 64 && ss <= k <= m <= se + 1 <= 64 && p1 > 0 && Refinable(was, now, ss, se + 1, p1)
    requires UpTo(zz, was, now, ss, k) && (forall j :: k <= j < m ==> !Fresh(was, now, j))
    requires if m == se + 1 then r >= Zeros(was, k, m) else was[m] == 0 && r == Zeros(was, k, m)
    requires Reads(f, pos, Corrections(was, now, k, m))
    ensures |zz'| == 64 && UpTo(zz', was, now, ss, m)
    ensures Skip(f, pos, k, se, p1, r, zz) == Skipped(zz', m, pos + |Corrections(was, now, k, m)|)
    decreases m - k
  {
    hide Corrected, Bit, Reads, UpTo, Refinable, Skip, Corrections;
    SkipIs(f, pos, k, se, p1, r, zz);
    if k == m {
      zz' := zz;
      NoCorrections(was, now, k);
      StillWas(zz, was, now, ss, k);
    } else {
      CorrectionsStep(was, now, k, m, f, pos);
      if was[k] != 0 {
        OneCorrected(f, pos, was, now, ss, k, se + 1, p1, zz);
        zz' := SkipStops(f, pos + 1, was, now, ss, k + 1, m, se, p1, r, zz[k := Corrected(zz[k], Bit(f, pos), p1)]);
      } else {
        assert !Fresh(was, now, k);
        ZeroPassed(was, now, ss, k, zz);
        zz' := SkipStops(f, pos, was, now, ss, k + 1, m, se, p1, r - 1, zz);
      }
    }
  }

  lemma NoCorrections(was: seq<int>, now: seq<int>, k: nat)
    requires |was| == |now| == 64 && k <= 64
    ensures Corrections(was, now, k, k) == []
  {
  }

  lemma StillWas(zz: seq<int>, was: seq<int>, now: seq<int>, ss: nat, k: nat)
    requires |zz| == |was| == |now| == 64 && UpTo(zz, was, now, ss, k)
    ensures forall j :: k <= j < 64 ==> zz[j] == was[j]
  {
  }

  // ---- the items of a band ----

  lemma {:induction false} BehindIs(was: seq<int>, now: seq<int>, k: nat, end: nat, b: nat)
    requires |was| == |now| == 64 && k <= b <= end <= 64
    requires (forall j :: b <= j < end ==> !Fresh(was, now, j)) && (b > k ==> Fresh(was, now, b - 1))
    ensures BehindFresh(was, now, k, end) == b
    decreases end - k
  {
    hide Fresh;
    if b < end {
      BehindIs(was, now, k, end - 1, b);
    }
  }

  lemma BehindStep(was: seq<int>, now: seq<int>, k: nat, end: nat, m: nat)
    requires |was| == |now| == 64 && k <= m < end <= 64 && Fresh(was, now, m)
    ensures forall i :: k <= i <= m + 1 ==> BehindFresh(was, now, i, end) == BehindFresh(was, now, k, end)
  {
    var b := BehindFresh(was, now, k, end);
    hide BehindFresh, Fresh;
    forall i | k <= i <= m + 1
      ensures BehindFresh(was, now, i, end) == b
    {
      BehindIs(was, now, i, end, b);
    }
  }

  lemma NoFresh(h: Spec, was: seq<int>, now: seq<int>, k: nat, end: nat)
    requires h.Ok() && |was| == |now| == 64 && k <= end <= 64 && NextFresh(was, now, k, end) == end
    ensures FreshItems(was, now, k, end) == [] && BehindFresh(was, now, k, end) == k
    ensures AllHas(h, []) && ItemsBits(h, []) == []
  {
    BehindIs(was, now, k, end, k);
    hide Fresh;
  }

  /** The first item from position k on, and the position behind it, if coefficient t is the next one. */
  function FreshAt(was: seq<int>, now: seq<int>, k: nat, t: nat): Item
    requires |was| == |now| == 64 && k <= t < 64
  {
    if Zeros(was, k, t) > 15 then Item(ZRL, Corrections(was, now, k, ZeroPlace(was, k, t, 15)))
    else Item(16 * Zeros(was, k, t) + 1, [now[t] > 0] + Corrections(was, now, k, t))
  }

  function StopAt(was: seq<int>, k: nat, t: nat): (m: nat)
    requires |was| == 64 && k <= t < 64
    ensures k <= m <= t
  {
    if Zeros(was, k, t) > 15 then ZeroPlace(was, k, t, 15) else t
  }

  lemma FreshItemsAt(was: seq<int>, now: seq<int>, k: nat, end: nat, t: nat)
    requires |was| == |now| == 64 && k <= t < end <= 64 && t == NextFresh(was, now, k, end)
    ensures FreshItems(was, now, k, end) == [FreshAt(was, now, k, t)] + FreshItems(was, now, StopAt(was, k, t) + 1, end)
    ensures Fresh(was, now, t) && forall j :: k <= j < t ==> !Fresh(was, now, j)
  {
    hide NextFresh, Zeros, Corrections, ZeroPlace, Fresh;
  }

  /** What the item says. */
  lemma FreshAtIs(was: seq<int>, now: seq<int>, k: nat, end: nat, t: nat)
    requires |was| == |now| == 64 && k <= t < end <= 64 && t == NextFresh(was, now, k, end)
    ensures var i, m := FreshAt(was, now, k, t), StopAt(was, k, t);
            && k <= m <= t && was[m] == 0 && i.symbol / 16 == Zeros(was, k, m)
            && if m < t then i.symbol % 16 == 0 && i.symbol / 16 == 15 && now[m] == 0 && i.tail == Corrections(was, now, k, m)
               else i.symbol % 16 == 1 && now[m] != 0 && i.tail == [now[t] > 0] + Corrections(was, now, k, m)
  {
    assert Fresh(was, now, t);
    if Zeros(was, k, t) > 15 {
      assert !Fresh(was, now, ZeroPlace(was, k, t, 15));
    } else {
      Nibbles(Zeros(was, k, t), 1);
    }
    hide NextFresh, Zeros, Corrections;
  }

  /** A coefficient that becomes non-zero. */
  lemma NewOne(f: nat -> byte, pos: nat, was: seq<int>, now: seq<int>, ss: nat, t: nat, end: nat, p1: nat, zz: seq<int>)
    requires Refinable(was, now, ss, end, p1) && |zz| == |was| == |now| == 64 && ss <= t < end <= 64 && was[t] == 0 && now[t] != 0
    requires UpTo(zz, was, now, ss, t) && Reads(f, pos, [now[t] > 0])
    ensures Newborn(Bit(f, pos), p1) == now[t]
    ensures UpTo(Placed(zz, t, 1, now[t]), was, now, ss, t + 1)
  {
    assert Stepped(was[t], now[t], p1);
    assert Bit(f, pos + 0) == 1 <==> [now[t] > 0][0];
    hide Bit;
    NewbornStep(Bit(f, pos), p1);
  }

  /** One item, decoded. */
  lemma FreshDecodes(h: Spec, f: nat -> byte, pos: nat, was: seq<int>, now: seq<int>, ss: nat, k: nat, t: nat, se: nat, p1: nat,
                     zz: seq<int>, control: nat)
    returns (next: nat, to: nat, zz': seq<int>, control': nat)
    requires h.Ok() && |was| == |now| == |zz| == 64 && ss <= k <= t <= se < 64 && t == NextFresh(was, now, k, se + 1)
    requires Refinable(was, now, ss, se + 1, p1) && UpTo(zz, was, now, ss, k) && p1 > 0
    requires AllHas(h, FreshItems(was, now, k, se + 1)) && Reads(f, pos, ItemsBits(h, FreshItems(was, now, k, se + 1)))
    ensures k < to <= t + 1 && to == StopAt(was, k, t) + 1 && |zz'| == 64 && UpTo(zz', was, now, ss, to)
    ensures Band(h, f, pos, k, se, p1, zz, control) == Band(h, f, next, to, se, p1, zz', control')
    ensures AllHas(h, FreshItems(was, now, to, se + 1)) && Reads(f, next, ItemsBits(h, FreshItems(was, now, to, se + 1)))
    ensures next + |ItemsBits(h, FreshItems(was, now, to, se + 1))| == pos + |ItemsBits(h, FreshItems(was, now, k, se + 1))|
  {
    hide *;
    var i, m := FreshAt(was, now, k, t), StopAt(was, k, t);
    to := m + 1;
    FreshItemsAt(was, now, k, se + 1, t);
    FreshAtIs(was, now, k, se + 1, t);
    ItemsStep(h, FreshItems(was, now, k, se + 1), i, FreshItems(was, now, to, se + 1));
    ReadsSplit(f, pos, ItemBits(h, i), ItemsBits(h, FreshItems(was, now, to, se + 1)));
    ReadsItem(h, f, pos, i);
    BandStep(h, f, pos, k, se, p1, zz, control);
    var (symbol, behind) := SymbolAt(h, f, pos);
    next := pos + |ItemBits(h, i)|;
    control' := control + (behind - pos) + symbol % 16;
    if m < t {
      zz' := SkipStops(f, behind, was, now, ss, k, m, se, p1, 15, zz);
      PlacedIs(zz', m, Newborn(Bit(f, behind), p1));
      ZeroPassed(was, now, ss, m, zz');
    } else {
      ReadsSplit(f, behind, [now[t] > 0], Corrections(was, now, k, m));
      zz' := SkipStops(f, behind + 1, was, now, ss, k, m, se, p1, Zeros(was, k, m), zz);
      NewOne(f, behind, was, now, ss, t, se + 1, p1, zz');
      zz' := Placed(zz', m, 1, now[t]);
      PlacedLength(zz', m, 1, now[t]);
    }
  }

  lemma PlacedIs(zz: seq<int>, m: nat, v: int)
    requires |zz| == 64
    ensures Placed(zz, m, 0, v) == zz
  {
  }

  lemma PlacedLength(zz: seq<int>, m: nat, s: nat, v: int)
    requires |zz| == 64
    ensures |Placed(zz, m, s, v)| == 64
  {
  }

  /** The items of a band. */
  lemma {:induction false} FreshItemsDecode(h: Spec, f: nat -> byte, pos: nat, was: seq<int>, now: seq<int>, ss: nat, k: nat, se: nat, p1: nat,
                                            zz: seq<int>, control: nat)
    returns (zz': seq<int>, control': nat)
    requires h.Ok() && |was| == |now| == |zz| == 64 && ss <= k <= se + 1 <= 64
    requires Refinable(was, now, ss, se + 1, p1) && UpTo(zz, was, now, ss, k) && p1 > 0
    requires AllHas(h, FreshItems(was, now, k, se + 1)) && Reads(f, pos, ItemsBits(h, FreshItems(was, now, k, se + 1)))
    ensures |zz'| == 64 && UpTo(zz', was, now, ss, BehindFresh(was, now, k, se + 1))
    ensures Band(h, f, pos, k, se, p1, zz, control) ==
            Band(h, f, pos + |ItemsBits(h, FreshItems(was, now, k, se + 1))|, BehindFresh(was, now, k, se + 1), se, p1, zz', control')
    decreases se + 1 - k
  {
    hide *;
    var t := NextFresh(was, now, k, se + 1);
    NextIs(was, now, k, se + 1, t);
    if t == se + 1 {
      NoFresh(h, was, now, k, se + 1);
      zz', control' := zz, control;
    } else {
      BehindStep(was, now, k, se + 1, t);
      var next, to;
      next, to, zz', control' := FreshDecodes(h, f, pos, was, now, ss, k, t, se, p1, zz, control);
      zz', control' := FreshItemsDecode(h, f, next, was, now, ss, to, se, p1, zz', control');
    }
  }

  lemma NextIs(was: seq<int>, now: seq<int>, k: nat, end: nat, t: nat)
    requires |was| == |now| == 64 && k <= end <= 64 && t == NextFresh(was, now, k, end)
    ensures k <= t <= end && (t < end ==> Fresh(was, now, t))
  {
  }

  // ---- end-of-band runs ----

  /** What a scan makes of a block. */
  datatype Change = Change(was: seq<int>, now: seq<int>)

  /** The correction bits of blocks in which no coefficient becomes non-zero. */
  ghost function LaterBits(cs: seq<Change>, ss: nat, se: nat): seq<bool>
    requires ss <= se < 64 && forall i :: 0 <= i < |cs| ==> |cs[i].was| == |cs[i].now| == 64
  {
    if cs == [] then [] else Corrections(cs[0].was, cs[0].now, ss, se + 1) + LaterBits(cs[1..], ss, se)
  }

  /** The blocks of an end-of-band run: behind some position of the first one, and in all of the others,
      no coefficient of the band becomes non-zero; or one block whose last coefficient does. */
  ghost predicate IsRefineRun(cs: seq<Change>, ss: nat, se: nat, p1: nat) {
    && 0 < |cs| < 0x8000 && ss <= se < 64 && p1 > 0 && (forall i :: 0 <= i < |cs| ==> Refinable(cs[i].was, cs[i].now, ss, se + 1, p1))
    && (|cs| > 1 ==> BehindFresh(cs[0].was, cs[0].now, ss, se + 1) <= se)
    && Quiet(cs[1..], ss, se)
  }

  ghost predicate Quiet(cs: seq<Change>, ss: nat, se: nat) {
    ss <= se < 64 && forall i :: 0 <= i < |cs| ==> |cs[i].was| == |cs[i].now| == 64 && NextFresh(cs[i].was, cs[i].now, ss, se + 1) == se + 1
  }

  ghost function RunItems(cs: seq<Change>, ss: nat, se: nat, p1: nat): seq<Item>
    requires IsRefineRun(cs, ss, se, p1)
  {
    var c := cs[0];
    var b := BehindFresh(c.was, c.now, ss, se + 1);
    FreshItems(c.was, c.now, ss, se + 1) +
    if b <= se then [RunItem(|cs|, Corrections(c.was, c.now, b, se + 1) + LaterBits(cs[1..], ss, se))] else []
  }

  ghost predicate Fits(zzs: seq<seq<int>>) {
    forall i :: 0 <= i < |zzs| ==> |zzs[i]| == 64
  }

  ghost function RefineBlocks(h: Spec, f: nat -> byte, pos: nat, ss: nat, se: nat, p1: nat, olds: seq<seq<int>>, eobRun: nat): Many
    requires h.Ok() && se < 64 && p1 > 0 && Fits(olds)
    decreases |olds|
  {
    if olds == [] then Many([], pos, eobRun)
    else
      match Refine(h, f, pos, ss, se, p1, olds[0], eobRun)
      case Refused => Bad
      case Refined(zz, next, run, _) => InFront(zz, RefineBlocks(h, f, next, ss, se, p1, olds[1..], run))
  }

  /** Each block has its new coefficients in the band, and is as it was outside. */
  ghost predicate AllRefined(zzs: seq<seq<int>>, cs: seq<Change>, ss: nat, se: nat) {
    && |zzs| == |cs|
    && forall i :: 0 <= i < |zzs| ==> |zzs[i]| == |cs[i].was| == |cs[i].now| == 64 && UpTo(zzs[i], cs[i].was, cs[i].now, ss, se + 1)
  }

  ghost function Before(cs: seq<Change>): (zzs: seq<seq<int>>)
    ensures |zzs| == |cs| && forall i :: 0 <= i < |cs| ==> zzs[i] == cs[i].was
  {
    seq(|cs|, (i: nat) requires i < |cs| => cs[i].was)
  }

  lemma RefineStep(h: Spec, f: nat -> byte, pos: nat, ss: nat, se: nat, p1: nat, olds: seq<seq<int>>, run: nat, zz: seq<int>, next: nat, run': nat, c: nat)
    requires h.Ok() && se < 64 && p1 > 0 && Fits(olds) && |olds| > 0 && |olds[0]| == 64
    requires Refine(h, f, pos, ss, se, p1, olds[0], run) == Refined(zz, next, run', c)
    ensures Fits(olds[1..])
    ensures RefineBlocks(h, f, pos, ss, se, p1, olds, run) == InFront(zz, RefineBlocks(h, f, next, ss, se, p1, olds[1..], run'))
  {
    hide Refine, Spec.Ok;
  }

  lemma InRun(h: Spec, f: nat -> byte, pos: nat, ss: nat, se: nat, p1: nat, zz: seq<int>, run: nat, zz': seq<int>, next: nat)
    requires h.Ok() && |zz| == 64 && se < 64 && p1 > 0 && run > 0 && Skip(f, pos, ss, se, p1, 64, zz) == Skipped(zz', se + 1, next)
    ensures Refine(h, f, pos, ss, se, p1, zz, run) == Refined(zz', next, run - 1, 0)
  {
    hide Skip, Spec.Ok, Band;
  }

  lemma NothingRefined(was: seq<int>, now: seq<int>, ss: nat)
    requires |was| == |now| == 64
    ensures UpTo(was, was, now, ss, ss)
  {
  }

  /** A block in which no coefficient becomes non-zero takes its correction bits only. */
  lemma QuietBlock(f: nat -> byte, pos: nat, c: Change, ss: nat, k: nat, se: nat, p1: nat, zz: seq<int>) returns (zz': seq<int>)
    requires |c.was| == |c.now| == |zz| == 64 && ss <= k <= se < 64 && p1 > 0 && Refinable(c.was, c.now, ss, se + 1, p1)
    requires UpTo(zz, c.was, c.now, ss, k) && (forall j :: k <= j <= se ==> !Fresh(c.was, c.now, j))
    requires Reads(f, pos, Corrections(c.was, c.now, k, se + 1))
    ensures |zz'| == 64 && UpTo(zz', c.was, c.now, ss, se + 1)
    ensures Skip(f, pos, k, se, p1, 64, zz) == Skipped(zz', se + 1, pos + |Corrections(c.was, c.now, k, se + 1)|)
  {
    hide Skip, Corrections, UpTo, Refinable, Reads, Fresh;
    zz' := SkipStops(f, pos, c.was, c.now, ss, k, se + 1, se, p1, 64, zz);
  }

  /** The other blocks of a run: no code word is read. */
  lemma {:induction false} RestOfRun(h: Spec, f: nat -> byte, pos: nat, ss: nat, se: nat, p1: nat, cs: seq<Change>) returns (zzs: seq<seq<int>>)
    requires h.Ok() && ss <= se < 64 && p1 > 0 && Quiet(cs, ss, se) && Fits(Before(cs))
    requires forall i :: 0 <= i < |cs| ==> Refinable(cs[i].was, cs[i].now, ss, se + 1, p1)
    requires Reads(f, pos, LaterBits(cs, ss, se))
    ensures RefineBlocks(h, f, pos, ss, se, p1, Before(cs), |cs|) == Many(zzs, pos + |LaterBits(cs, ss, se)|, 0)
    ensures AllRefined(zzs, cs, ss, se)
    decreases |cs|
  {
    hide Refine, Spec.Ok, Refinable, Reads, UpTo, Skip, Corrections, Fresh;
    zzs := [];
    if cs != [] {
      var c, olds := cs[0], Before(cs);
      assert NextFresh(c.was, c.now, ss, se + 1) == se + 1;
      hide NextFresh;
      var bits := Corrections(c.was, c.now, ss, se + 1);
      ReadsSplit(f, pos, bits, LaterBits(cs[1..], ss, se));
      NothingRefined(c.was, c.now, ss);
      var zz := QuietBlock(f, pos, c, ss, ss, se, p1, c.was);
      InRun(h, f, pos, ss, se, p1, c.was, |cs|, zz, pos + |bits|);
      RefineStep(h, f, pos, ss, se, p1, olds, |cs|, zz, pos + |bits|, |cs| - 1, 0);
      assert olds[1..] == Before(cs[1..]);
      var rest := RestOfRun(h, f, pos + |bits|, ss, se, p1, cs[1..]);
      zzs := [zz] + rest;
    }
  }

  lemma RefineIs(h: Spec, f: nat -> byte, pos: nat, ss: nat, se: nat, p1: nat, zz: seq<int>)
    requires h.Ok() && |zz| == 64 && se < 64 && p1 > 0
    ensures Refine(h, f, pos, ss, se, p1, zz, 0) == Band(h, f, pos, ss, se, p1, zz, 0)
  {
    hide Band, Spec.Ok;
  }

  lemma InEobRunIs(f: nat -> byte, pos: nat, k: nat, se: nat, p1: nat, zz: seq<int>, run: nat, control: nat, zz': seq<int>, next: nat)
    requires |zz| == 64 && se < 64 && p1 > 0 && run > 0 && Skip(f, pos, k, se, p1, 64, zz) == Skipped(zz', se + 1, next)
    ensures InEobRun(f, pos, k, se, p1, zz, run, control) == Refined(zz', next, run - 1, control)
  {
    hide Skip;
  }

  lemma RunItemsAre(h: Spec, cs: seq<Change>, ss: nat, se: nat, p1: nat)
    requires h.Ok() && IsRefineRun(cs, ss, se, p1) && AllHas(h, RunItems(cs, ss, se, p1))
    ensures 0 < |cs| < 0x8000 && ss <= se < 64 && p1 > 0 && |cs[0].was| == |cs[0].now| == 64 && Refinable(cs[0].was, cs[0].now, ss, se + 1, p1)
    ensures |cs| > 1 ==> BehindFresh(cs[0].was, cs[0].now, ss, se + 1) <= se
    ensures Quiet(cs[1..], ss, se) && (forall i :: 0 <= i < |cs[1..]| ==> |cs[1..][i].was| == |cs[1..][i].now| == 64)
    ensures forall i :: 0 <= i < |cs[1..]| ==> Refinable(cs[1..][i].was, cs[1..][i].now, ss, se + 1, p1)
    ensures forall i :: 0 <= i < |cs| ==> |cs[i].was| == 64
    ensures var c, b := cs[0], BehindFresh(cs[0].was, cs[0].now, ss, se + 1);
            var tail := if b <= se then [RunItem(|cs|, Corrections(c.was, c.now, b, se + 1) + LaterBits(cs[1..], ss, se))] else [];
            RunItems(cs, ss, se, p1) == FreshItems(c.was, c.now, ss, se + 1) + tail && AllHas(h, FreshItems(c.was, c.now, ss, se + 1) + tail)
  {
    assert forall i :: 0 <= i < |cs| ==> Refinable(cs[i].was, cs[i].now, ss, se + 1, p1) && |cs[i].was| == 64;
    hide FreshItems, Refinable, BehindFresh, RunItem, AllHas, Spec.Ok, LaterBits, Corrections, NextFresh, Fresh;
    forall i | 0 <= i < |cs[1..]|
      ensures Refinable(cs[1..][i].was, cs[1..][i].now, ss, se + 1, p1)
    {
      assert cs[1..][i] == cs[i + 1];
    }
  }

  lemma BehindQuiet(c: Change, ss: nat, end: nat)
    requires |c.was| == |c.now| == 64 && ss <= end <= 64
    ensures var b := BehindFresh(c.was, c.now, ss, end);
            ss <= b <= end && forall j :: b <= j < end ==> !Fresh(c.was, c.now, j)
  {
  }

  /** The first block of a run, and where the correction bits of the others are. */
  lemma FirstOfRun(h: Spec, f: nat -> byte, pos: nat, ss: nat, se: nat, p1: nat, cs: seq<Change>)
    returns (zz: seq<int>, next: nat, control: nat)
    requires h.Ok() && IsRefineRun(cs, ss, se, p1) && |cs| > 0 && |cs[0].was| == |cs[0].now| == 64 && ss <= se < 64 && p1 > 0
    requires Quiet(cs[1..], ss, se) && forall i :: 0 <= i < |cs[1..]| ==> |cs[1..][i].was| == |cs[1..][i].now| == 64
    requires AllHas(h, RunItems(cs, ss, se, p1)) && Reads(f, pos, ItemsBits(h, RunItems(cs, ss, se, p1)))
    ensures |zz| == 64 && UpTo(zz, cs[0].was, cs[0].now, ss, se + 1)
    ensures Refine(h, f, pos, ss, se, p1, cs[0].was, 0) == Refined(zz, next, |cs| - 1, control)
    ensures Reads(f, next, LaterBits(cs[1..], ss, se))
    ensures next + |LaterBits(cs[1..], ss, se)| == pos + |ItemsBits(h, RunItems(cs, ss, se, p1))|
  {
    hide *;
    RunItemsAre(h, cs, ss, se, p1);
    var c, b := cs[0], BehindFresh(cs[0].was, cs[0].now, ss, se + 1);
    BehindQuiet(c, ss, se + 1);
    var rest, later := Corrections(c.was, c.now, b, se + 1), LaterBits(cs[1..], ss, se);
    var items, i := FreshItems(c.was, c.now, ss, se + 1), RunItem(|cs|, rest + later);
    var tail := if b <= se then [i] else [];
    BitsAppend(h, items, tail);
    ReadsSplit(f, pos, ItemsBits(h, items), ItemsBits(h, tail));
    NothingRefined(c.was, c.now, ss);
    zz, control := FreshItemsDecode(h, f, pos, c.was, c.now, ss, ss, se, p1, c.was, 0);
    var at := pos + |ItemsBits(h, items)|;
    RefineIs(h, f, pos, ss, se, p1, c.was);
    BandStep(h, f, at, b, se, p1, zz, control);
    if b <= se {
      OneItem(h, i);
      ReadsRun(h, f, at, |cs|, rest + later);
      var (symbol, behind) := SymbolAt(h, f, at);
      var k := behind + symbol / 16;
      ReadsSplit(f, k, rest, later);
      var zz' := QuietBlock(f, k, c, ss, b, se, p1, zz);
      next := k + |rest|;
      control := control + (behind - at) + symbol / 16;
      InEobRunIs(f, k, b, se, p1, zz, |cs|, control, zz', next);
      zz := zz';
    } else {
      NoBits(h);
      NoLaterBits(cs[1..], ss, se);
      NoneRead(f, at);
      next := at;
    }
  }

  lemma NoLaterBits(cs: seq<Change>, ss: nat, se: nat)
    requires ss <= se < 64
    ensures cs == [] ==> LaterBits(cs, ss, se) == []
  {
  }

  lemma NoneRead(f: nat -> byte, pos: nat)
    ensures Reads(f, pos, [])
  {
  }

  lemma RefinedOne(zz: seq<int>, c: Change, rest: seq<seq<int>>, cs: seq<Change>, ss: nat, se: nat)
    requires |zz| == |c.was| == |c.now| == 64 && UpTo(zz, c.was, c.now, ss, se + 1) && AllRefined(rest, cs, ss, se)
    ensures AllRefined([zz] + rest, [c] + cs, ss, se)
  {
    hide UpTo;
  }

  lemma RefinedParts(a: seq<seq<int>>, b: seq<seq<int>>, ca: seq<Change>, cb: seq<Change>, ss: nat, se: nat)
    requires AllRefined(a, ca, ss, se) && AllRefined(b, cb, ss, se)
    ensures AllRefined(a + b, ca + cb, ss, se)
  {
    hide UpTo;
  }

  lemma BeforeParts(a: seq<Change>, b: seq<Change>)
    ensures Before(a + b) == Before(a) + Before(b)
  {
  }

  lemma BeforeIs(cs: seq<Change>)
    requires |cs| > 0
    ensures Before(cs)[1..] == Before(cs[1..]) && Before(cs)[0] == cs[0].was && |Before(cs)| == |cs|
    ensures (forall i :: 0 <= i < |cs| ==> |cs[i].was| == 64) ==> Fits(Before(cs)) && Fits(Before(cs[1..]))
  {
  }

  /** A run takes as many blocks as its code says; code words are read for the first one only. */
  lemma RunDecodes(h: Spec, f: nat -> byte, pos: nat, ss: nat, se: nat, p1: nat, cs: seq<Change>) returns (zzs: seq<seq<int>>)
    requires h.Ok() && se < 64 && p1 > 0 && IsRefineRun(cs, ss, se, p1) && Fits(Before(cs))
    requires AllHas(h, RunItems(cs, ss, se, p1)) && Reads(f, pos, ItemsBits(h, RunItems(cs, ss, se, p1)))
    ensures RefineBlocks(h, f, pos, ss, se, p1, Before(cs), 0) == Many(zzs, pos + |ItemsBits(h, RunItems(cs, ss, se, p1))|, 0)
    ensures AllRefined(zzs, cs, ss, se)
  {
    hide *;
    RunItemsAre(h, cs, ss, se, p1);
    BeforeIs(cs);
    var zz, next, control := FirstOfRun(h, f, pos, ss, se, p1, cs);
    RefineStep(h, f, pos, ss, se, p1, Before(cs), 0, zz, next, |cs| - 1, control);
    var rest := RestOfRun(h, f, next, ss, se, p1, cs[1..]);
    InFrontIs(zz, rest, pos + |ItemsBits(h, RunItems(cs, ss, se, p1))|);
    zzs := [zz] + rest;
    RefinedOne(zz, cs[0], rest, cs[1..], ss, se);
    assert [cs[0]] + cs[1..] == cs;
  }

  lemma InFrontIs(zz: seq<int>, rest: seq<seq<int>>, next: nat)
    ensures InFront(zz, Many(rest, next, 0)) == Many([zz] + rest, next, 0)
  {
  }

  // ---- a whole scan ----

  ghost predicate AllRuns(runs: seq<seq<Change>>, ss: nat, se: nat, p1: nat) {
    forall r :: 0 <= r < |runs| ==> IsRefineRun(runs[r], ss, se, p1)
  }

  ghost function ScanItems(runs: seq<seq<Change>>, ss: nat, se: nat, p1: nat): seq<Item>
    requires AllRuns(runs, ss, se, p1)
  {
    if runs == [] then [] else RunItems(runs[0], ss, se, p1) + ScanItems(runs[1..], ss, se, p1)
  }

  /** Blocks decoded in two parts. */
  lemma {:induction false} RefineBlocksSplit(h: Spec, f: nat -> byte, pos: nat, ss: nat, se: nat, p1: nat, a: seq<seq<int>>, b: seq<seq<int>>, run: nat)
    requires h.Ok() && se < 64 && p1 > 0 && Fits(a + b)
    ensures Fits(a) && Fits(b)
    ensures var o := RefineBlocks(h, f, pos, ss, se, p1, a, run);
            o.Many? ==>
              var rest := RefineBlocks(h, f, o.next, ss, se, p1, b, o.eobRun);
              RefineBlocks(h, f, pos, ss, se, p1, a + b, run) ==
              if rest.Many? then Many(o.zzs + rest.zzs, rest.next, rest.eobRun) else Bad
    decreases |a|
  {
    hide Refine, Spec.Ok;
    forall i | 0 <= i < |a|
      ensures |a[i]| == 64
    {
      assert a[i] == (a + b)[i];
    }
    forall i | 0 <= i < |b|
      ensures |b[i]| == 64
    {
      assert b[i] == (a + b)[|a| + i];
    }
    if a == [] {
      assert a + b == b;
    } else {
      assert (a + b)[1..] == a[1..] + b && (a + b)[0] == a[0];
      match Refine(h, f, pos, ss, se, p1, a[0], run) {
        case Refused =>
        case Refined(zz, next, r, _) =>
          RefineBlocksSplit(h, f, next, ss, se, p1, a[1..], b, r);
          var o := RefineBlocks(h, f, next, ss, se, p1, a[1..], r);
          if o.Many? {
            var rest := RefineBlocks(h, f, o.next, ss, se, p1, b, o.eobRun);
            if rest.Many? {
              assert [zz] + (o.zzs + rest.zzs) == [zz] + o.zzs + rest.zzs;
            }
          }
      }
    }
  }

  /** Decoding a refinement scan gives every block its refined coefficients, however the encoder has
      divided the blocks into end-of-band runs, and ends behind the last bit with no run left. */
  lemma {:induction false} ScanDecodes(h: Spec, f: nat -> byte, pos: nat, ss: nat, se: nat, p1: nat, runs: seq<seq<Change>>)
    returns (zzs: seq<seq<int>>)
    requires h.Ok() && se < 64 && p1 > 0 && AllRuns(runs, ss, se, p1) && Fits(Before(Blocks(runs)))
    requires AllHas(h, ScanItems(runs, ss, se, p1)) && Reads(f, pos, ItemsBits(h, ScanItems(runs, ss, se, p1)))
    ensures RefineBlocks(h, f, pos, ss, se, p1, Before(Blocks(runs)), 0) == Many(zzs, pos + |ItemsBits(h, ScanItems(runs, ss, se, p1))|, 0)
    ensures AllRefined(zzs, Blocks(runs), ss, se)
    decreases |runs|
  {
    hide Refine, Band, Spec.Ok, AllHas, Reads, ItemsBits, RunItems, IsRefineRun, UpTo;
    if runs == [] {
      NoBits(h);
      zzs := [];
    } else {
      var items, later := RunItems(runs[0], ss, se, p1), ScanItems(runs[1..], ss, se, p1);
      BeforeParts(runs[0], Blocks(runs[1..]));
      BitsAppend(h, items, later);
      ReadsSplit(f, pos, ItemsBits(h, items), ItemsBits(h, later));
      RefineBlocksSplit(h, f, pos, ss, se, p1, Before(runs[0]), Before(Blocks(runs[1..])), 0);
      var z1 := RunDecodes(h, f, pos, ss, se, p1, runs[0]);
      var z2 := ScanDecodes(h, f, pos + |ItemsBits(h, items)|, ss, se, p1, runs[1..]);
      RefinedParts(z1, z2, runs[0], Blocks(runs[1..]), ss, se);
      zzs := z1 + z2;
    }
  }
}
