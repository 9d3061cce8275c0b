/** The encoder's side of the first AC scan of a band, ITU-T T.81 section G.1.2.2, with end-of-band
    runs over several blocks; and that decoding gives the coefficients back. */
module FirstEncoder {
  import opened Arith
  import opened BitStream
  import opened HuffmanDecode
  import opened BlockDecoder
  import opened AcRefine
  import opened ProgressiveScans
  import opened BitCode
  import opened BlockEncoder

  /** The block zz with the coefficients c of the positions from k up to m; those that are zero are
      not written. */
  ghost predicate Written(zz: seq<int>, base: seq<int>, c: seq<int>, k: nat, m: nat, p1: nat)
    requires |zz| == |base| == |c| == 64
  {
    forall j :: 0 <= j < 64 ==> zz[j] == if k <= j < m && c[j] != 0 then Wrap16(c[j] * p1) else base[j]
  }

  lemma NothingWritten(base: seq<int>, c: seq<int>, k: nat, p1: nat)
    requires |base| == |c| == 64
    ensures Written(base, base, c, k, k, p1)
  {
  }

  lemma ZerosWritten(zz: seq<int>, base: seq<int>, c: seq<int>, k: nat, m: nat, to: nat, p1: nat)
    requires |zz| == |base| == |c| == 64 && m <= to && Written(zz, base, c, k, m, p1) && forall j :: m <= j < to && j < 64 ==> c[j] == 0
    ensures Written(zz, base, c, k, to, p1)
  {
    hide Wrap16;
  }

  lemma OneWritten(zz: seq<int>, base: seq<int>, c: seq<int>, k: nat, m: nat, p1: nat)
    requires |zz| == |base| == |c| == 64 && k <= m < 64 && Written(zz, base, c, k, m, p1) && c[m] != 0
    ensures Written(zz[m := Shifted(c[m], p1)], base, c, k, m + 1, p1)
  {
    hide Wrap16;
    assert Shifted(c[m], p1) == Wrap16(c[m] * p1);
  }

  lemma ZerosBefore(zz: seq<int>, base: seq<int>, c: seq<int>, ss: nat, k: nat, end: nat, to: nat, p1: nat)
    requires |zz| == |base| == |c| == 64 && k <= end <= 64 && k <= to <= NextNonZero(c, k, end) && Written(zz, base, c, ss, k, p1)
    ensures Written(zz, base, c, ss, to, p1)
  {
    ZerosWritten(zz, base, c, ss, k, to, p1);
  }

  lemma ZerosBehind(zz: seq<int>, base: seq<int>, c: seq<int>, ss: nat, k: nat, end: nat, p1: nat)
    requires |zz| == |base| == |c| == 64 && ss <= k <= end <= 64 && Written(zz, base, c, ss, Behind(c, k, end), p1)
    ensures Written(zz, base, c, ss, end, p1)
  {
    ZerosWritten(zz, base, c, ss, Behind(c, k, end), end, p1);
  }

  /** One item. */
  lemma ItemDecodes(h: Spec, f: nat -> byte, pos: nat, c: seq<int>, ss: nat, k: nat, m: nat, se: nat, p1: nat, zz: seq<int>, base: seq<int>)
    returns (next: nat, to: nat, zz': seq<int>)
    requires h.Ok() && Codable(c) && |c| == |zz| == |base| == 64 && ss <= k <= m <= se < 64 && m == NextNonZero(c, k, se + 1)
    requires Written(zz, base, c, ss, k, p1)
    requires AllHas(h, Items(c, k, se + 1)) && Reads(f, pos, ItemsBits(h, Items(c, k, se + 1)))
    ensures k < to <= m + 1 && |zz'| == 64 && Written(zz', base, c, ss, to, p1)
    ensures FirstFrom(h, f, pos, k, se, p1, zz) == FirstFrom(h, f, next, to, se, p1, zz')
    ensures AllHas(h, Items(c, to, se + 1)) && Reads(f, next, ItemsBits(h, Items(c, to, se + 1)))
    ensures next + |ItemsBits(h, Items(c, to, se + 1))| == pos + |ItemsBits(h, Items(c, k, se + 1))|
  {
    hide *;
    var i := ItemAt(c, k, m);
    to := if m - k > 15 then k + 16 else m + 1;
    NextIs(c, k, se + 1, m);
    ItemsAt(c, k, se + 1, m);
    ItemFits(c, k, m);
    ItemsStep(h, Items(c, k, se + 1), i, Items(c, to, se + 1));
    ReadsSplit(f, pos, ItemBits(h, i), ItemsBits(h, Items(c, to, se + 1)));
    ReadsExtra(h, f, pos, i, ItemExtra(c, k, m));
    FirstStep(h, f, pos, k, se, p1, zz);
    next := pos + |ItemBits(h, i)|;
    zz' := zz;
    if m - k > 15 {
      ZerosBefore(zz, base, c, ss, k, se + 1, to, p1);
    } else {
      ExtendBack(c[m], ItemExtra(c, k, m));
      ZerosBefore(zz, base, c, ss, k, se + 1, m, p1);
      OneWritten(zz, base, c, ss, m, p1);
      zz' := zz[m := Shifted(c[m], p1)];
    }
  }

  /** The items of a band. */
  lemma {:induction false} ItemsDecode(h: Spec, f: nat -> byte, pos: nat, c: seq<int>, ss: nat, k: nat, se: nat, p1: nat, zz: seq<int>, base: seq<int>)
    returns (zz': seq<int>)
    requires h.Ok() && Codable(c) && |c| == |zz| == |base| == 64 && ss <= k <= se + 1 <= 64 && Written(zz, base, c, ss, k, p1)
    requires AllHas(h, Items(c, k, se + 1)) && Reads(f, pos, ItemsBits(h, Items(c, k, se + 1)))
    ensures |zz'| == 64 && Written(zz', base, c, ss, se + 1, p1)
    ensures FirstFrom(h, f, pos, k, se, p1, zz) ==
            FirstFrom(h, f, pos + |ItemsBits(h, Items(c, k, se + 1))|, Behind(c, k, se + 1), se, p1, zz')
    decreases se + 1 - k
  {
    hide *;
    var m := NextNonZero(c, k, se + 1);
    NextIs(c, k, se + 1, m);
    if m == se + 1 {
      NoItems(h, c, k, se + 1);
      ZerosBefore(zz, base, c, ss, k, se + 1, se + 1, p1);
      zz' := zz;
    } else {
      BehindStep(c, k, se + 1, m);
      var next, to;
      next, to, zz' := ItemDecodes(h, f, pos, c, ss, k, m, se, p1, zz, base);
      zz' := ItemsDecode(h, f, next, c, ss, to, se, p1, zz', base);
    }
  }

  // ---- end-of-band runs: T.81 table G.1 ----

  /** The number n of EOBn for a run of so many blocks: the run is at least 2^n and less than 2^(n+1). */
  function RunCategory(blocks: nat): (n: nat)
    requires blocks > 0
    ensures Pow2(n) <= blocks < Pow2(n + 1)
  {
    BitCount(blocks) - 1
  }

  lemma RunFits(blocks: nat)
    requires 0 < blocks < 0x8000
    ensures RunCategory(blocks) <= 14
  {
    var n := RunCategory(blocks);
    if n > 14 {
      Pow2Monotone(15, n);
      Pow2Small();
    }
  }

  /** The item that says so many blocks end here, and the bits that come behind it. */
  function RunItem(blocks: nat, tail: seq<bool>): Item
    requires 0 < blocks < 0x8000
  {
    RunFits(blocks);
    Item(16 * RunCategory(blocks), Digits(blocks - Pow2(RunCategory(blocks)), RunCategory(blocks)) + tail)
  }

  lemma RunItemIs(blocks: nat, tail: seq<bool>)
    requires 0 < blocks < 0x8000
    ensures var n, i := RunCategory(blocks), RunItem(blocks, tail);
            && n <= 14 && Pow2(n) <= blocks && blocks - Pow2(n) < Pow2(n) && i.tail == Digits(blocks - Pow2(n), n) + tail
            && i.symbol == 16 * n && i.symbol / 16 == n && i.symbol % 16 == 0
  {
    RunFits(blocks);
    Pow2Double(RunCategory(blocks));
    hide RunCategory, Pow2;
    Nibbles(RunCategory(blocks), 0);
  }

  lemma EobLengthIs(f: nat -> byte, pos: nat, n: nat, blocks: nat)
    requires Pow2(n) <= blocks && Window(f, pos, n) == blocks - Pow2(n)
    ensures EobLength(f, pos, n) == blocks
  {
  }

  /** The length of the run is read back. */
  lemma ReadsRun(h: Spec, f: nat -> byte, pos: nat, blocks: nat, tail: seq<bool>)
    requires h.Ok() && 0 < blocks < 0x8000 && Has(h, RunItem(blocks, tail).symbol) && Reads(f, pos, ItemBits(h, RunItem(blocks, tail)))
    ensures var (symbol, next) := SymbolAt(h, f, pos);
            && symbol % 16 == 0 && symbol / 16 < 15 && EobLength(f, next, symbol / 16) == blocks
            && Reads(f, next + symbol / 16, tail)
            && next + symbol / 16 + |tail| == pos + |ItemBits(h, RunItem(blocks, tail))|
  {
    hide *;
    var n, i := RunCategory(blocks), RunItem(blocks, tail);
    RunItemIs(blocks, tail);
    ReadsItem(h, f, pos, i);
    var next := pos + |CodeWord(h, i.symbol)|;
    ReadsSplit(f, next, Digits(blocks - Pow2(n), n), tail);
    ReadsDigits(f, next, blocks - Pow2(n), n);
    EobLengthIs(f, next, n, blocks);
    DigitCount(blocks - Pow2(n), n);
  }

  lemma DigitCount(v: nat, n: nat)
    ensures |Digits(v, n)| == n
  {
  }

  // ---- several blocks ----

  /** Blocks decoded one after the other. */
  datatype Many = Bad | Many(zzs: seq<seq<int>>, next: nat, eobRun: nat)

  function InFront(zz: seq<int>, m: Many): Many {
    match m
    case Bad => Bad
    case Many(zzs, next, eobRun) => Many([zz] + zzs, next, eobRun)
  }

  ghost function FirstBlocks(h: Spec, f: nat -> byte, pos: nat, ss: nat, se: nat, p1: nat, olds: seq<seq<int>>, eobRun: nat): Many
    requires h.Ok() && se < 64 && forall i :: 0 <= i < |olds| ==> |olds[i]| == 64
    decreases |olds|
  {
    if olds == [] then Many([], pos, eobRun)
    else
      match First(h, f, pos, ss, se, p1, olds[0], eobRun)
      case Invalid => Bad
      case Coded(zz, next, run) => InFront(zz, FirstBlocks(h, f, next, ss, se, p1, olds[1..], run))
  }

  /** The blocks of an end-of-band run: the first one ends in zeros, and the others are zero in the
      band; or one block that does not end in zeros. */
  ghost predicate IsRun(cs: seq<seq<int>>, ss: nat, se: nat) {
    && 0 < |cs| < 0x8000 && ss <= se < 64 && (forall i :: 0 <= i < |cs| ==> Codable(cs[i]))
    && (|cs| > 1 ==> Behind(cs[0], ss, se + 1) <= se)
    && forall i, j :: 0 < i < |cs| && ss <= j <= se ==> cs[i][j] == 0
  }

  ghost function RunItems(cs: seq<seq<int>>, ss: nat, se: nat): seq<Item>
    requires IsRun(cs, ss, se)
  {
    Items(cs[0], ss, se + 1) + if Behind(cs[0], ss, se + 1) <= se then [RunItem(|cs|, [])] else []
  }

  /** Each block has its coefficients in the band. */
  ghost predicate AllWritten(zzs: seq<seq<int>>, olds: seq<seq<int>>, cs: seq<seq<int>>, ss: nat, se: nat, p1: nat) {
    && |zzs| == |olds| == |cs|
    && forall i :: 0 <= i < |zzs| ==> |zzs[i]| == |olds[i]| == |cs[i]| == 64 && Written(zzs[i], olds[i], cs[i], ss, se + 1, p1)
  }

  /** Blocks within a run are not read at all. */
  lemma {:induction false} RestOfRun(h: Spec, f: nat -> byte, pos: nat, ss: nat, se: nat, p1: nat, olds: seq<seq<int>>, cs: seq<seq<int>>)
    requires h.Ok() && ss <= se < 64 && |olds| == |cs| && forall i :: 0 <= i < |olds| ==> |olds[i]| == |cs[i]| == 64
    requires forall i, j :: 0 <= i < |cs| && ss <= j <= se ==> cs[i][j] == 0
    ensures FirstBlocks(h, f, pos, ss, se, p1, olds, |olds|) == Many(olds, pos, 0)
    ensures AllWritten(olds, olds, cs, ss, se, p1)
    decreases |olds|
  {
    hide FirstFrom, Spec.Ok, Wrap16;
    if olds != [] {
      RestOfRun(h, f, pos, ss, se, p1, olds[1..], cs[1..]);
      assert [olds[0]] + olds[1..] == olds;
      forall i | 0 <= i < |olds|
        ensures Written(olds[i], olds[i], cs[i], ss, se + 1, p1)
      {
      }
    }
  }

  lemma FirstIs(h: Spec, f: nat -> byte, pos: nat, ss: nat, se: nat, p1: nat, zz: seq<int>)
    requires h.Ok() && |zz| == 64 && se < 64
    ensures First(h, f, pos, ss, se, p1, zz, 0) == FirstFrom(h, f, pos, ss, se, p1, zz)
  {
    hide FirstFrom, Spec.Ok;
  }

  lemma RunItemsAre(h: Spec, cs: seq<seq<int>>, ss: nat, se: nat)
    requires h.Ok() && IsRun(cs, ss, se) && AllHas(h, RunItems(cs, ss, se))
    ensures 0 < |cs| < 0x8000 && ss <= se < 64 && Codable(cs[0]) && |cs[0]| == 64
    ensures |cs| > 1 ==> Behind(cs[0], ss, se + 1) <= se
    ensures var tail := if Behind(cs[0], ss, se + 1) <= se then [RunItem(|cs|, [])] else [];
            RunItems(cs, ss, se) == Items(cs[0], ss, se + 1) + tail && AllHas(h, Items(cs[0], ss, se + 1) + tail)
  {
    assert Codable(cs[0]) && |cs[0]| == 64;
    hide Items, Codable, Behind, RunItem, AllHas, Spec.Ok;
  }

  lemma OneItem(h: Spec, i: Item)
    requires h.Ok() && AllHas(h, [i])
    ensures Has(h, i.symbol) && ItemsBits(h, [i]) == ItemBits(h, i)
  {
    NoBits(h);
    assert [i] == [i] + [];
    hide Has, ItemBits, ItemsBits, AllHas, Spec.Ok;
    ItemsStep(h, [i], i, []);
    assert ItemBits(h, i) + [] == ItemBits(h, i);
  }

  /** The first block of a run. */
  lemma FirstOfRun(h: Spec, f: nat -> byte, pos: nat, ss: nat, se: nat, p1: nat, cs: seq<seq<int>>, zz: seq<int>) returns (zz': seq<int>)
    requires h.Ok() && IsRun(cs, ss, se) && |cs| > 0 && |zz| == |cs[0]| == 64 && ss <= se < 64
    requires AllHas(h, RunItems(cs, ss, se)) && Reads(f, pos, ItemsBits(h, RunItems(cs, ss, se)))
    ensures |zz'| == 64 && Written(zz', zz, cs[0], ss, se + 1, p1)
    ensures First(h, f, pos, ss, se, p1, zz, 0) == Coded(zz', pos + |ItemsBits(h, RunItems(cs, ss, se))|, |cs| - 1)
  {
    hide *;
    RunItemsAre(h, cs, ss, se);
    var c, b := cs[0], Behind(cs[0], ss, se + 1);
    var items, i := Items(c, ss, se + 1), RunItem(|cs|, []);
    var tail := if b <= se then [i] else [];
    BitsAppend(h, items, tail);
    ReadsSplit(f, pos, ItemsBits(h, items), ItemsBits(h, tail));
    NothingWritten(zz, c, ss, p1);
    zz' := ItemsDecode(h, f, pos, c, ss, ss, se, p1, zz, zz);
    var next := pos + |ItemsBits(h, items)|;
    FirstIs(h, f, pos, ss, se, p1, zz);
    FirstStep(h, f, next, b, se, p1, zz');
    if b <= se {
      OneItem(h, i);
      ReadsRun(h, f, next, |cs|, []);
    } else {
      NoBits(h);
    }
  }

  /** A run takes as many blocks as its code says: the first block, and those after it without reading
      anything; and then the run is over. */
  lemma RunDecodes(h: Spec, f: nat -> byte, pos: nat, ss: nat, se: nat, p1: nat, olds: seq<seq<int>>, cs: seq<seq<int>>)
    returns (zzs: seq<seq<int>>)
    requires h.Ok() && IsRun(cs, ss, se) && |olds| == |cs| && forall i :: 0 <= i < |olds| ==> |olds[i]| == 64
    requires AllHas(h, RunItems(cs, ss, se)) && Reads(f, pos, ItemsBits(h, RunItems(cs, ss, se)))
    ensures FirstBlocks(h, f, pos, ss, se, p1, olds, 0) == Many(zzs, pos + |ItemsBits(h, RunItems(cs, ss, se))|, 0)
    ensures AllWritten(zzs, olds, cs, ss, se, p1)
  {
    hide *;
    RunIs(cs, ss, se);
    var zz := FirstOfRun(h, f, pos, ss, se, p1, cs, olds[0]);
    var next := pos + |ItemsBits(h, RunItems(cs, ss, se))|;
    RestOfRun(h, f, next, ss, se, p1, olds[1..], cs[1..]);
    zzs := [zz] + olds[1..];
    BlocksStep(h, f, pos, ss, se, p1, olds, zz, next, olds[1..]);
    WrittenOne(zz, olds[0], cs[0], ss, se, p1);
    WrittenParts([zz], olds[1..], [olds[0]], olds[1..], [cs[0]], cs[1..], ss, se, p1);
    assert [olds[0]] + olds[1..] == olds && [cs[0]] + cs[1..] == cs;
  }

  lemma RunIs(cs: seq<seq<int>>, ss: nat, se: nat)
    requires IsRun(cs, ss, se)
    ensures |cs| > 0 && ss <= se < 64 && (forall i :: 0 <= i < |cs| ==> |cs[i]| == 64)
    ensures forall i :: 0 <= i < |cs[1..]| ==> |cs[1..][i]| == 64
    ensures forall i, j :: 0 <= i < |cs[1..]| && ss <= j <= se ==> cs[1..][i][j] == 0
  {
    hide Category;
    forall i | 0 <= i < |cs|
      ensures |cs[i]| == 64
    {
      assert Codable(cs[i]);
    }
    forall i, j | 0 <= i < |cs[1..]| && ss <= j <= se
      ensures cs[1..][i][j] == 0
    {
      assert cs[1..][i] == cs[i + 1];
    }
  }

  lemma BlocksStep(h: Spec, f: nat -> byte, pos: nat, ss: nat, se: nat, p1: nat, olds: seq<seq<int>>, zz: seq<int>, next: nat, rest: seq<seq<int>>)
    requires h.Ok() && se < 64 && |olds| > 0 && forall i :: 0 <= i < |olds| ==> |olds[i]| == 64
    requires First(h, f, pos, ss, se, p1, olds[0], 0) == Coded(zz, next, |olds| - 1)
    requires forall i :: 0 <= i < |olds[1..]| ==> |olds[1..][i]| == 64
    requires FirstBlocks(h, f, next, ss, se, p1, olds[1..], |olds[1..]|) == Many(rest, next, 0)
    ensures FirstBlocks(h, f, pos, ss, se, p1, olds, 0) == Many([zz] + rest, next, 0)
  {
    hide First, Spec.Ok;
  }

  lemma WrittenOne(zz: seq<int>, zz0: seq<int>, c: seq<int>, ss: nat, se: nat, p1: nat)
    requires |zz| == |zz0| == |c| == 64 && Written(zz, zz0, c, ss, se + 1, p1)
    ensures AllWritten([zz], [zz0], [c], ss, se, p1)
  {
    hide Written;
  }

  lemma WrittenParts(z1: seq<seq<int>>, z2: seq<seq<int>>, o1: seq<seq<int>>, o2: seq<seq<int>>, c1: seq<seq<int>>, c2: seq<seq<int>>, ss: nat, se: nat, p1: nat)
    requires AllWritten(z1, o1, c1, ss, se, p1) && AllWritten(z2, o2, c2, ss, se, p1)
    ensures AllWritten(z1 + z2, o1 + o2, c1 + c2, ss, se, p1)
  {
    hide Written;
  }

  // ---- a whole scan ----

  /** The blocks of several runs. */
  function Blocks<T>(runs: seq<seq<T>>): seq<T> {
    if runs == [] then [] else runs[0] + Blocks(runs[1..])
  }

  ghost predicate AllRuns(runs: seq<seq<seq<int>>>, ss: nat, se: nat) {
    forall r :: 0 <= r < |runs| ==> IsRun(runs[r], ss, se)
  }

  ghost function ScanItems(runs: seq<seq<seq<int>>>, ss: nat, se: nat): seq<Item>
    requires AllRuns(runs, ss, se)
  {
    if runs == [] then [] else RunItems(runs[0], ss, se) + ScanItems(runs[1..], ss, se)
  }

  /** Blocks decoded in two parts. */
  lemma {:induction false} FirstBlocksSplit(h: Spec, f: nat -> byte, pos: nat, ss: nat, se: nat, p1: nat, a: seq<seq<int>>, b: seq<seq<int>>, run: nat)
    requires h.Ok() && se < 64 && forall i :: 0 <= i < |a + b| ==> |(a + b)[i]| == 64
    ensures (forall i :: 0 <= i < |a| ==> |a[i]| == 64) && forall i :: 0 <= i < |b| ==> |b[i]| == 64
    ensures var o := FirstBlocks(h, f, pos, ss, se, p1, a, run);
            o.Many? ==>
              var rest := FirstBlocks(h, f, o.next, ss, se, p1, b, o.eobRun);
              FirstBlocks(h, f, pos, ss, se, p1, a + b, run) ==
              if rest.Many? then Many(o.zzs + rest.zzs, rest.next, rest.eobRun) else Bad
    decreases |a|
  {
    hide First, Spec.Ok;
    forall i | 0 <= i < |a|
      ensures |a[i]| == 64
    {
      assert a[i] == (a + b)[i];
    }
    forall i | 0 <= i < |b|
      ensures |b[i]| == 64
    {
      assert b[i] == (a + b)[|a| + i];
    }
    if a == [] {
      assert a + b == b;
    } else {
      assert (a + b)[1..] == a[1..] + b && (a + b)[0] == a[0];
      match First(h, f, pos, ss, se, p1, a[0], run) {
        case Invalid =>
        case Coded(zz, next, r) =>
          FirstBlocksSplit(h, f, next, ss, se, p1, a[1..], b, r);
          var o := FirstBlocks(h, f, next, ss, se, p1, a[1..], r);
          if o.Many? {
            var rest := FirstBlocks(h, f, o.next, ss, se, p1, b, o.eobRun);
            if rest.Many? {
              assert [zz] + (o.zzs + rest.zzs) == [zz] + o.zzs + rest.zzs;
            }
          }
      }
    }
  }

  /** Decoding a scan of a band gives every block its coefficients, however the encoder has divided the
      blocks into end-of-band runs, and ends behind the last bit with no run left. */
  lemma {:induction false} ScanDecodes(h: Spec, f: nat -> byte, pos: nat, ss: nat, se: nat, p1: nat, olds: seq<seq<int>>, runs: seq<seq<seq<int>>>)
    returns (zzs: seq<seq<int>>)
    requires h.Ok() && ss <= se < 64 && AllRuns(runs, ss, se) && |olds| == |Blocks(runs)| && forall i :: 0 <= i < |olds| ==> |olds[i]| == 64
    requires AllHas(h, ScanItems(runs, ss, se)) && Reads(f, pos, ItemsBits(h, ScanItems(runs, ss, se)))
    ensures FirstBlocks(h, f, pos, ss, se, p1, olds, 0) == Many(zzs, pos + |ItemsBits(h, ScanItems(runs, ss, se))|, 0)
    ensures AllWritten(zzs, olds, Blocks(runs), ss, se, p1)
    decreases |runs|
  {
    hide First, FirstFrom, Spec.Ok, AllHas, Reads, ItemsBits, RunItems, IsRun, Written;
    if runs == [] {
      NoBits(h);
      zzs := [];
    } else {
      var n := |runs[0]|;
      var a, b, items, later := olds[..n], olds[n..], RunItems(runs[0], ss, se), ScanItems(runs[1..], ss, se);
      assert olds == a + b;
      BitsAppend(h, items, later);
      ReadsSplit(f, pos, ItemsBits(h, items), ItemsBits(h, later));
      FirstBlocksSplit(h, f, pos, ss, se, p1, a, b, 0);
      var z1 := RunDecodes(h, f, pos, ss, se, p1, a, runs[0]);
      var z2 := ScanDecodes(h, f, pos + |ItemsBits(h, items)|, ss, se, p1, b, runs[1..]);
      WrittenParts(z1, z2, a, b, runs[0], Blocks(runs[1..]), ss, se, p1);
      zzs := z1 + z2;
    }
  }
}
