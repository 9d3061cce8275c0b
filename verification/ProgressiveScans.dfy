/** The AC scans of a progressive image together: the first one, jpeg_decoder::decode_block_ac_first
    (ITU-T T.81 section G.1.2.2), and what any number of refinement scans after it arrive at. */
module ProgressiveScans {
  import opened Arith
  import opened BitStream
  import opened BitReaders
  import opened CanonicalCode
  import opened HuffmanTrie
  import opened HuffmanCover
  import opened HuffmanTables
  import opened HuffmanDecode
  import opened IdctTables
  import opened BlockDecoder
  import opened AcRefine

  // ---- the first scan ----

  /** A band after the first scan: the coefficients, the position in the stream, and the blocks
      still to come in the current end-of-band run. */
  datatype FirstOutcome = Invalid | Coded(zz: seq<int>, next: nat, eobRun: nat)

  /** A coefficient with the bits below p1 still to come. */
  function Shifted(v: int, p1: nat): int {
    Wrap16(v * p1)
  }

  /** A band from position k on. */
  ghost function FirstFrom(h: Spec, f: nat -> byte, pos: nat, k: nat, se: nat, p1: nat, zz: seq<int>): FirstOutcome
    requires h.Ok() && |zz| == 64 && se < 64
    decreases se + 1 - k
  {
    if k > se then Coded(zz, pos, 0)
    else
      var (symbol, next) := SymbolAt(h, f, pos);
      var r: nat, s: nat := symbol / 16, symbol % 16;
      if s != 0 then
        if k + r > 63 then Invalid
        else FirstFrom(h, f, next + s, k + r + 1, se, p1, zz[k + r := Shifted(Extend(Window(f, next, s), s), p1)])
      else if r == 15 then
        if k + 15 > 63 then Invalid else FirstFrom(h, f, next, k + 16, se, p1, zz)
      else
        Coded(zz, next + r, EobLength(f, next, r) - 1)
  }

  /** One block of a first scan; in an end-of-band run there is nothing to read. */
  ghost function First(h: Spec, f: nat -> byte, pos: nat, ss: nat, se: nat, p1: nat, zz: seq<int>, eobRun: nat): FirstOutcome
    requires h.Ok() && |zz| == 64 && se < 64
  {
    if eobRun == 0 then FirstFrom(h, f, pos, ss, se, p1, zz) else Coded(zz, pos, eobRun - 1)
  }

  lemma FirstStep(h: Spec, f: nat -> byte, pos: nat, k: nat, se: nat, p1: nat, zz: seq<int>)
    requires h.Ok() && |zz| == 64 && se < 64
    ensures FirstFrom(h, f, pos, k, se, p1, zz) ==
            if k > se then Coded(zz, pos, 0)
            else
              var (symbol, next) := SymbolAt(h, f, pos);
              var r: nat, s: nat := symbol / 16, symbol % 16;
              if s != 0 then
                if k + r > 63 then Invalid
                else FirstFrom(h, f, next + s, k + r + 1, se, p1, zz[k + r := Shifted(Extend(Window(f, next, s), s), p1)])
              else if r == 15 then
                if k + 15 > 63 then Invalid else FirstFrom(h, f, next, k + 16, se, p1, zz)
              else
                Coded(zz, next + r, EobLength(f, next, r) - 1)
  {
    hide SymbolAt, Window, Extend, Shifted, EobLength;
  }

  /** One block of a first scan, in place. */
  method DecodeBlockAcFirst(r: BitReader, t: HuffTables, ghost h: Spec, p: array<int>, at: nat, ss: nat, se: nat, al: nat,
                            eobRun0: nat, ghost zz0: seq<int>)
    returns (ok: bool, eobRun: nat)
    requires h.Ok() && h.Distinct() && t.Represents(h.lens, h.vals) && r.InEntropySegment()
    requires at + 64 <= p.Length && |zz0| == 64 && se < 64 && Disjoint(p, t)
    requires p[at..at + 64] == InPlace(zz0)
    modifies r, p
    ensures r.InEntropySegment() && r.octets == old(r.octets) && r.source == old(r.source)
    ensures var o := First(h, r.octets, old(r.Position()), ss, se, Pow2(al), zz0, eobRun0);
            && ok == o.Coded?
            && (ok ==>
                 && r.Position() == o.next && eobRun == o.eobRun
                 && |o.zz| == 64 && p[at..at + 64] == InPlace(o.zz))
    ensures forall i :: 0 <= i < p.Length && !(at <= i < at + 64) ==> p[i] == old(p[i])
  {
    hide Zag, Unzag, InPlace, Buffer, Entropy, Bit, Window, Pow2, SymbolAt, Inner, Begins, FirstFrom, Extend, Shifted;
    hide Covers, SizesOf, Trie.Ok, Trie.Stored, Trie.Looks, Wrap16;
    r.PositionIsNat();
    ok, eobRun := true, eobRun0;
    if eobRun > 0 {
      eobRun := eobRun - 1;
      return;
    }
    ghost var f, zz := r.octets, zz0;
    var k, p1 := ss, Pow2(al);
    while k <= se
      invariant |zz| == 64 && ok && eobRun == 0
      invariant r.InEntropySegment() && r.octets == f && r.source == old(r.source) && 0 <= r.Position()
      invariant t.Represents(h.lens, h.vals)
      invariant p[at..at + 64] == InPlace(zz)
      invariant FirstFrom(h, f, old(r.Position()), ss, se, p1, zz0) == FirstFrom(h, f, r.Position(), k, se, p1, zz)
      invariant forall i :: 0 <= i < p.Length && !(at <= i < at + 64) ==> p[i] == old(p[i])
      decreases se + 1 - k
    {
      FirstStep(h, f, r.Position(), k, se, p1, zz);
      var symbol := HuffDecode(r, t, h);
      var run, s := symbol / 16, symbol % 16;
      if s != 0 {
        k := k + run;
        if k > 63 {
          return false, 0;
        }
        var bits := r.GetBitsNoMarkers(s);
        var v := Shifted(Extend(bits, s), p1);
        Put(p, at, k, v, zz);
        zz := zz[k := v];
      } else {
        if run == 15 {
          k := k + 15;
          if k > 63 {
            return false, 0;
          }
        } else {
          WindowNone(f, r.Position());
          eobRun := Pow2(run);
          if run != 0 {
            var more := r.GetBitsNoMarkers(run);
            eobRun := eobRun + more;
          }
          eobRun := eobRun - 1;
          return;
        }
      }
      k := k + 1;
    }
    FirstStep(h, f, r.Position(), k, se, p1, zz);
  }

  // ---- what the first scan leaves ----

  /** A multiple of p1 with 16 bits. */
  ghost predicate Multiple16(v: int, p1: nat) {
    p1 > 0 && v % p1 == 0 && -0x8000 <= v < 0x8000
  }

  lemma ShiftedIsMultiple(v: int, al: nat)
    requires al <= 15
    ensures Multiple16(Shifted(v, Pow2(al)), Pow2(al))
  {
    var p1 := Pow2(al);
    Pow2Add(al, 16 - al);
    Pow2Small();
    hide Pow2;
    var m := Pow2(16 - al);
    var n := (v * p1 + 0x8000) / 0x1_0000;
    assert Shifted(v, p1) == v * p1 - n * 0x1_0000;
    Distribute(v, n, m, p1);
    DivExact(v - n * m, p1);
  }

  lemma Distribute(v: int, n: int, m: int, p1: int)
    requires p1 * m == 0x1_0000
    ensures v * p1 - n * 0x1_0000 == (v - n * m) * p1
  {
    assert n * (p1 * m) == n * m * p1;
  }

  /** The coefficient that a zero run puts behind the band, if one passes the end of the band:
      its place, 64 if there is none, and its value. */
  ghost function PastEnd(h: Spec, f: nat -> byte, pos: nat, k: nat, se: nat, p1: nat): (nat, int)
    requires h.Ok() && se < 64
    decreases se + 1 - k
  {
    if k > se then (64, 0)
    else
      var (symbol, next) := SymbolAt(h, f, pos);
      var r: nat, s: nat := symbol / 16, symbol % 16;
      if s != 0 then
        if k + r > se then (k + r, Shifted(Extend(Window(f, next, s), s), p1)) else PastEnd(h, f, next + s, k + r + 1, se, p1)
      else if r == 15 then PastEnd(h, f, next, k + 16, se, p1)
      else (64, 0)
  }

  /** What a first scan writes are multiples of 2^Al. Everything outside the band stays as it is,
      but for the coefficient that a zero run may put behind the end of the band. */
  lemma {:induction false} FirstMeaning(h: Spec, f: nat -> byte, pos: nat, k: nat, se: nat, al: nat, zz: seq<int>)
    requires h.Ok() && |zz| == 64 && se < 64 && al <= 15
    ensures var o := FirstFrom(h, f, pos, k, se, Pow2(al), zz);
            var (past, v) := PastEnd(h, f, pos, k, se, Pow2(al));
            o.Coded? ==>
              && |o.zz| == 64 && o.next >= pos && se < past <= 64
              && (forall j :: 0 <= j < 64 ==> o.zz[j] == zz[j] || Multiple16(o.zz[j], Pow2(al)))
              && (forall j :: 0 <= j < 64 && !(k <= j <= se) ==> o.zz[j] == if j == past then v else zz[j])
    decreases se + 1 - k
  {
    hide SymbolAt, Window, Extend, Shifted, EobLength, Pow2, Multiple16;
    FirstStep(h, f, pos, k, se, Pow2(al), zz);
    if k <= se {
      var (symbol, next) := SymbolAt(h, f, pos);
      var r: nat, s: nat := symbol / 16, symbol % 16;
      if s != 0 {
        if k + r <= 63 {
          var v := Shifted(Extend(Window(f, next, s), s), Pow2(al));
          ShiftedIsMultiple(Extend(Window(f, next, s), s), al);
          FirstMeaning(h, f, next + s, k + r + 1, se, al, zz[k + r := v]);
        }
      } else if r == 15 && k + 15 <= 63 {
        FirstMeaning(h, f, next, k + 16, se, al, zz);
      }
    }
  }

  /** So a first scan keeps to its band just if no zero run passes the end of the band, or the
      coefficient there has the new value already. */
  lemma FirstKeepsOutside(h: Spec, f: nat -> byte, pos: nat, ss: nat, se: nat, al: nat, zz: seq<int>)
    requires h.Ok() && |zz| == 64 && ss <= se < 64 && al <= 15
    ensures var o := FirstFrom(h, f, pos, ss, se, Pow2(al), zz);
            var (past, v) := PastEnd(h, f, pos, ss, se, Pow2(al));
            o.Coded? ==>
              |o.zz| == 64 && (OutsideKept(zz, o.zz, ss, se) <==> past == 64 || (past < 64 && zz[past] == v))
  {
    FirstMeaning(h, f, pos, ss, se, al, zz);
    hide FirstFrom, PastEnd, Pow2;
  }

  // ---- all scans of a band ----

  /** v is x without its bits below q. */
  ghost predicate LeadingBits(v: int, x: int, q: nat) {
    && q > 0 && v % q == 0
    && if x >= 0 then 0 <= v <= x < v + q else v - q < x <= v <= 0
  }

  /** What one refinement scan reads for a block. */
  datatype ScanData = ScanData(h: Spec, f: nat -> byte, pos: nat, eobRun: nat)

  /** A block after several refinement scans of a band, the first of them with successive
      approximation bit al - 1, the next with al - 2, and so on; there is none if one is invalid. */
  ghost function RefineAll(scans: seq<ScanData>, ss: nat, se: nat, al: nat, zz: seq<int>): (r: seq<int>)
    requires |zz| == 64 && se < 64 && |scans| <= al && forall i :: 0 <= i < |scans| ==> scans[i].h.Ok()
    decreases |scans|
  {
    if scans == [] then zz
    else
      var d := scans[0];
      var o := Refine(d.h, d.f, d.pos, ss, se, Pow2(al - 1), zz, d.eobRun);
      if o.Refined? && |o.zz| == 64 then RefineAll(scans[1..], ss, se, al - 1, o.zz) else []
  }

  lemma OneStep(v: int, v': int, p1: nat)
    requires p1 > 0 && v % (2 * p1) == 0 && -0x8000 < v < 0x8000 && Stepped(v, v', p1) && Weight(p1)
    ensures v' % p1 == 0 && -0x8000 < v' < 0x8000 && LeadingBits(v, v', 2 * p1)
  {
    EvenQuotient(v, p1);
    var q := 2 * p1;
    RoomBelow(v, 0x8000, q);
    RoomBelow(-0x8000, v, q);
    MultipleOfHalf(v, p1);
    ModAdd(v, 1, p1);
    ModAdd(v, -1, p1);
  }

  lemma MultipleOfHalf(v: int, p1: nat)
    requires p1 > 0 && v % (2 * p1) == 0
    ensures v % p1 == 0
  {
    Multiple(v, 2 * p1);
    MulAssoc(v / (2 * p1), 2, p1);
    DivModUnique(v, p1, v / (2 * p1) * 2, 0);
  }

  /** Bits cut off in two steps. */
  lemma LeadingTwice(v: int, v': int, x: int, q: nat)
    requires LeadingBits(v, v', 2 * q) && LeadingBits(v', x, q)
    ensures LeadingBits(v, x, 2 * q)
  {
    MultipleOfHalf(v, q);
    ModAdd(v, 2, q);
    ModAdd(v, -2, q);
    if v' >= 0 {
      RoomBelow(v', v + 2 * q, q);
    } else {
      RoomBelow(v - 2 * q, v', q);
    }
  }

  /** Successive approximation: whatever the refinement scans read, each coefficient of the band
      keeps the bits it had, and only gains lower ones. */
  lemma {:induction false} SuccessiveApproximation(scans: seq<ScanData>, ss: nat, se: nat, al: nat, zz: seq<int>)
    requires |zz| == 64 && ss <= se < 64 && |scans| <= al <= 15 && forall i :: 0 <= i < |scans| ==> scans[i].h.Ok()
    requires forall j :: ss <= j <= se ==> Multiple16(zz[j], Pow2(al)) && zz[j] != -0x8000
    ensures var zz' := RefineAll(scans, ss, se, al, zz);
            zz' != [] ==>
              |zz'| == 64 &&
              forall j :: ss <= j <= se ==> LeadingBits(zz[j], zz'[j], Pow2(al)) && Multiple16(zz'[j], Pow2(al - |scans|))
    decreases |scans|
  {
    hide Pow2, Multiple16, LeadingBits, Stepped, Weight, Refine, NonZeros, OutsideKept, Spill;
    if scans == [] {
      forall j | ss <= j <= se
        ensures LeadingBits(zz[j], zz[j], Pow2(al))
      {
        AllBits(zz[j], Pow2(al));
      }
    } else {
      var d := scans[0];
      var p1 := Pow2(al - 1);
      var o := Refine(d.h, d.f, d.pos, ss, se, p1, zz, d.eobRun);
      DoublePow(al);
      BandIsCoarse(zz, ss, se, p1);
      RefinementMeaning(d.h, d.f, d.pos, ss, se, al - 1, zz, d.eobRun);
      if o.Refined? && RefineAll(scans, ss, se, al, zz) != [] {
        forall j | ss <= j <= se
          ensures Multiple16(o.zz[j], p1) && o.zz[j] != -0x8000 && LeadingBits(zz[j], o.zz[j], 2 * p1)
        {
          WeightOf(al - 1);
          StepOne(zz[j], o.zz[j], p1);
        }
        SuccessiveApproximation(scans[1..], ss, se, al - 1, o.zz);
        var zz' := RefineAll(scans[1..], ss, se, al - 1, o.zz);
        forall j | ss <= j <= se
          ensures LeadingBits(zz[j], zz'[j], 2 * p1)
        {
          LeadingTwice(zz[j], o.zz[j], zz'[j], p1);
        }
      }
    }
  }

  lemma AllBits(v: int, q: nat)
    requires Multiple16(v, q)
    ensures LeadingBits(v, v, q)
  {
  }

  lemma DoublePow(al: nat)
    requires al >= 1
    ensures Pow2(al) == 2 * Pow2(al - 1) && Pow2(al - 1) > 0
  {
  }

  lemma BandIsCoarse(zz: seq<int>, ss: nat, se: nat, p1: nat)
    requires |zz| == 64 && ss <= se < 64 && p1 > 0
    requires forall j :: ss <= j <= se ==> Multiple16(zz[j], 2 * p1) && zz[j] != -0x8000
    ensures Coarse(zz, ss, se + 1, p1)
  {
  }

  lemma StepOne(v: int, v': int, p1: nat)
    requires Multiple16(v, 2 * p1) && v != -0x8000 && Stepped(v, v', p1) && Weight(p1)
    ensures Multiple16(v', p1) && v' != -0x8000 && LeadingBits(v, v', 2 * p1)
  {
    OneStep(v, v', p1);
  }

  /** All AC scans of a band, from a block that is zero there: in the end the coefficients still
      have the leading bits that the first scan gave them, unless it gave one the value -32768. */
  lemma AllScans(first: ScanData, scans: seq<ScanData>, ss: nat, se: nat, al: nat, zz: seq<int>)
    requires |zz| == 64 && ss <= se < 64 && |scans| <= al <= 15 && first.h.Ok() && forall i :: 0 <= i < |scans| ==> scans[i].h.Ok()
    requires forall j :: ss <= j <= se ==> zz[j] == 0
    ensures var o := First(first.h, first.f, first.pos, ss, se, Pow2(al), zz, first.eobRun);
            o.Coded? ==>
              |o.zz| == 64 &&
              ((forall j :: ss <= j <= se ==> o.zz[j] != -0x8000) && RefineAll(scans, ss, se, al, o.zz) != [] ==>
                 var zz' := RefineAll(scans, ss, se, al, o.zz);
                 |zz'| == 64 &&
                 forall j :: ss <= j <= se ==> LeadingBits(o.zz[j], zz'[j], Pow2(al)) && Multiple16(zz'[j], Pow2(al - |scans|)))
  {
    hide Pow2, LeadingBits, FirstFrom, RefineAll, Multiple16;
    var o := First(first.h, first.f, first.pos, ss, se, Pow2(al), zz, first.eobRun);
    FirstMeaning(first.h, first.f, first.pos, ss, se, al, zz);
    ZeroIsMultiple(al);
    if o.Coded? && (forall j :: ss <= j <= se ==> o.zz[j] != -0x8000) {
      SuccessiveApproximation(scans, ss, se, al, o.zz);
    }
  }

  lemma ZeroIsMultiple(al: nat)
    ensures Multiple16(0, Pow2(al))
  {
    DivExact(0, Pow2(al));
  }
}
