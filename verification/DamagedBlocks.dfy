/** What sequences of code words are decoded to that no encoder would write: zero runs of any length,
    and codes that end a block early or pass its end. */
module DamagedBlocks {
  import opened Arith
  import opened BitStream
  import opened HuffmanDecode
  import opened BlockDecoder
  import opened AcRefine
  import opened ProgressiveScans
  import opened BitCode
  import opened BlockEncoder

  /** A zero run and the size of the coefficient behind it, with extra bits of any value. */
  datatype Code = Code(run: nat, size: nat, extra: nat) {
    predicate Ok() {
      run < 16 && size < 16 && extra < Pow2(size)
    }

    /** All other codes end the block. */
    predicate GoesOn() {
      size > 0 || run == 15
    }

    function Sent(): Item
      requires Ok()
    {
      Item(16 * run + size, Digits(extra, size))
    }

    function Value(): int {
      Extend(extra, size)
    }
  }

  ghost predicate AllGoOn(codes: seq<Code>) {
    forall i :: 0 <= i < |codes| ==> codes[i].Ok() && codes[i].GoesOn()
  }

  function ItemsOf(codes: seq<Code>): (items: seq<Item>)
    requires forall i :: 0 <= i < |codes| ==> codes[i].Ok()
    ensures |items| == |codes|
  {
    seq(|codes|, i requires 0 <= i < |codes| => codes[i].Sent())
  }

  /** The position behind these codes: each of them takes its zeros and one position more. */
  function Reached(codes: seq<Code>, k: nat): nat {
    if codes == [] then k else Reached(codes[..|codes| - 1], k) + codes[|codes| - 1].run + 1
  }

  /** The position of code number i, behind its zeros. */
  function Target(codes: seq<Code>, k: nat, i: nat): nat
    requires i < |codes|
  {
    Reached(codes[..i], k) + codes[i].run
  }

  /** The coefficient of a code, weighted, goes to position t. */
  function Wrote(c: Code, t: nat, w: seq<int>, zz: seq<int>): (r: seq<int>)
    requires |w| == |zz| == 64 && t < 64
    ensures |r| == 64
  {
    if c.size > 0 then zz[t := Wrap16(c.Value() * w[t])] else zz
  }

  /** The coefficients of the codes, weighted, are at their positions, and all others are as they were. */
  ghost predicate Put(codes: seq<Code>, k: nat, w: seq<int>, zz: seq<int>, zz': seq<int>) {
    && |w| == |zz| == |zz'| == 64
    && (forall i :: 0 <= i < |codes| && codes[i].size > 0 ==>
          Target(codes, k, i) < 64 && zz'[Target(codes, k, i)] == Wrap16(codes[i].Value() * w[Target(codes, k, i)]))
    && forall j :: 0 <= j < 64 && zz'[j] != zz[j] ==> exists i :: 0 <= i < |codes| && codes[i].size > 0 && Target(codes, k, i) == j
  }

  lemma {:induction false} ReachedGrows(codes: seq<Code>, k: nat, i: nat)
    requires i < |codes|
    ensures k <= Reached(codes[..i], k) <= Target(codes, k, i) < Reached(codes, k)
    decreases |codes|
  {
    var n := |codes| - 1;
    if i < n {
      assert codes[..n][..i] == codes[..i];
      ReachedGrows(codes[..n], k, i);
    } else if n > 0 {
      assert codes[..n][..n - 1] == codes[..n - 1];
      ReachedGrows(codes[..n], k, n - 1);
    }
  }

  lemma TargetOfPart(codes: seq<Code>, k: nat, last: Code, i: nat)
    requires i <= |codes|
    ensures (codes + [last])[..i] == codes[..i]
    ensures Target(codes + [last], k, i) == if i < |codes| then Target(codes, k, i) else Reached(codes, k) + last.run
  {
    assert codes[..|codes|] == codes;
  }

  lemma ReachedOne(codes: seq<Code>, k: nat, last: Code)
    ensures Reached(codes + [last], k) == Reached(codes, k) + last.run + 1
  {
    assert (codes + [last])[..|codes|] == codes;
  }

  /** One code more. */
  lemma PutOne(codes: seq<Code>, k: nat, last: Code, w: seq<int>, zz: seq<int>, was: seq<int>, now: seq<int>)
    requires Put(codes, k, w, zz, was) && Reached(codes, k) + last.run < 64
    requires |was| == |w| == 64 && now == Wrote(last, Reached(codes, k) + last.run, w, was)
    ensures Put(codes + [last], k, w, zz, now)
  {
    var all, n := codes + [last], |codes|;
    hide Target, Reached, Wrap16, Code.Value;
    forall i | 0 <= i < |all| && all[i].size > 0
      ensures Target(all, k, i) < 64 && now[Target(all, k, i)] == Wrap16(all[i].Value() * w[Target(all, k, i)])
    {
      TargetOfPart(codes, k, last, i);
      if i < n {
        ReachedGrows(codes, k, i);
      }
    }
    forall j | 0 <= j < 64 && now[j] != zz[j]
      ensures exists i :: 0 <= i < |all| && all[i].size > 0 && Target(all, k, i) == j
    {
      if was[j] != zz[j] {
        var i :| 0 <= i < n && codes[i].size > 0 && Target(codes, k, i) == j;
        TargetOfPart(codes, k, last, i);
        assert all[i] == codes[i];
      } else {
        TargetOfPart(codes, k, last, n);
        assert all[n] == last;
      }
    }
  }

  lemma WroteIs(c: Code, t: nat, w: seq<int>, zz: seq<int>)
    requires |w| == |zz| == 64 && t < 64
    ensures Wrote(c, t, w, zz) == if c.size > 0 then zz[t := Wrap16(c.Value() * w[t])] else zz
  {
  }

  lemma NonePut(k: nat, w: seq<int>, zz: seq<int>)
    requires |w| == |zz| == 64
    ensures Put([], k, w, zz, zz) && Reached([], k) == k && ItemsOf([]) == []
  {
  }

  lemma ItemIs(c: Code)
    requires c.Ok()
    ensures c.Sent().symbol == 16 * c.run + c.size && c.Sent().tail == Digits(c.extra, c.size) && c.extra < Pow2(c.size)
    ensures c.Sent().symbol / 16 == c.run < 16 && c.Sent().symbol % 16 == c.size
    ensures c.Value() == Extend(c.extra, c.size) && (c.GoesOn() <==> c.size > 0 || c.run == 15)
  {
    hide Extend, Digits;
    Nibbles(c.run, c.size);
  }

  lemma LastItem(h: Spec, f: nat -> byte, pos: nat, codes: seq<Code>, last: Code)
    requires h.Ok() && (forall i :: 0 <= i < |codes| ==> codes[i].Ok()) && last.Ok()
    requires var items := ItemsOf(codes + [last]); AllHas(h, items) && Reads(f, pos, ItemsBits(h, items))
    ensures AllHas(h, ItemsOf(codes)) && Reads(f, pos, ItemsBits(h, ItemsOf(codes))) && Has(h, last.Sent().symbol)
    ensures var next := pos + |ItemsBits(h, ItemsOf(codes))|;
            Reads(f, next, ItemBits(h, last.Sent())) && next + |ItemBits(h, last.Sent())| == pos + |ItemsBits(h, ItemsOf(codes + [last]))|
  {
    var items, i := ItemsOf(codes), last.Sent();
    assert ItemsOf(codes + [last]) == items + [i];
    hide *;
    BitsAppend(h, items, [i]);
    ReadsSplit(f, pos, ItemsBits(h, items), ItemsBits(h, [i]));
    NoBits(h);
    assert [i] == [i] + [];
    ItemsStep(h, [i], i, []);
    assert ItemBits(h, i) + [] == ItemBits(h, i);
  }

  // ---- sequential blocks ----

  /** One code of a block, whatever it is. */
  lemma OneCode(h: Spec, q: seq<int>, f: nat -> byte, pos: nat, k: nat, zz: seq<int>, c: Code)
    requires h.Ok() && |q| == |zz| == 64 && k < 64 && c.Ok() && Has(h, c.Sent().symbol) && Reads(f, pos, ItemBits(h, c.Sent()))
    ensures var t, next := k + c.run, pos + |ItemBits(h, c.Sent())|;
            AcFrom(h, q, f, pos, k, zz) ==
            if !c.GoesOn() then Outcome.Decoded(Block(zz, k, next))
            else if t >= 64 then Failed
            else AcFrom(h, q, f, next, t + 1, Wrote(c, t, q, zz))
  {
    hide *;
    ItemIs(c);
    ReadsExtra(h, f, pos, c.Sent(), c.extra);
    var d := DecodeAt(h, f, pos);
    assert d.symbol / 16 == c.run && d.symbol % 16 == c.size && Extend(d.extra, d.symbol % 16) == c.Value();
    AcStep(h, q, f, pos, k, zz);
    if c.GoesOn() && k + c.run < 64 {
      WroteIs(c, k + c.run, q, zz);
    }
  }

  lemma Split(codes: seq<Code>, k: nat) returns (init: seq<Code>, last: Code)
    requires codes != [] && AllGoOn(codes)
    ensures codes == init + [last] && AllGoOn(init) && last.Ok() && last.GoesOn() && init == codes[..|codes| - 1]
    ensures init != [] ==> Reached(init[..|init| - 1], k) < Reached(init, k)
  {
    hide Code.Ok, Code.GoesOn, Reached;
    init, last := codes[..|codes| - 1], codes[|codes| - 1];
    if init != [] {
      ReachedGrows(init, k, |init| - 1);
    }
  }

  /** One code more. */
  lemma NextCode(h: Spec, q: seq<int>, f: nat -> byte, pos: nat, k: nat, zz: seq<int>, init: seq<Code>, last: Code, was: seq<int>)
    returns (now: seq<int>)
    requires h.Ok() && |q| == |was| == 64 && AllGoOn(init + [last]) && last.Ok() && last.GoesOn() && Reached(init, k) < 64
    requires Put(init, k, q, zz, was) && Has(h, last.Sent().symbol) && Reads(f, pos, ItemBits(h, last.Sent()))
    ensures |now| == 64
    ensures var to := Reached(init + [last], k);
            if to > 64 then AcFrom(h, q, f, pos, Reached(init, k), was) == Failed
            else Put(init + [last], k, q, zz, now) &&
                 AcFrom(h, q, f, pos, Reached(init, k), was) == AcFrom(h, q, f, pos + |ItemBits(h, last.Sent())|, to, now)
  {
    hide *;
    ReachedOne(init, k, last);
    OneCode(h, q, f, pos, Reached(init, k), was, last);
    var t := Reached(init, k) + last.run;
    now := was;
    if t < 64 {
      now := Wrote(last, t, q, was);
      PutOne(init, k, last, q, zz, was, now);
    }
  }

  /** Codes that go on are decoded one after the other, and refused if and only if they pass the end of
      the block. */
  lemma {:induction false} CodesDecode(h: Spec, q: seq<int>, f: nat -> byte, pos: nat, k: nat, zz: seq<int>, codes: seq<Code>)
    returns (zz': seq<int>)
    requires h.Ok() && |q| == |zz| == 64 && AllGoOn(codes) && AllHas(h, ItemsOf(codes)) && Reads(f, pos, ItemsBits(h, ItemsOf(codes)))
    requires codes != [] ==> Reached(codes[..|codes| - 1], k) < 64
    ensures |zz'| == 64
    ensures if codes != [] && Reached(codes, k) > 64 then AcFrom(h, q, f, pos, k, zz) == Failed
            else Put(codes, k, q, zz, zz') &&
                 AcFrom(h, q, f, pos, k, zz) == AcFrom(h, q, f, pos + |ItemsBits(h, ItemsOf(codes))|, Reached(codes, k), zz')
    decreases |codes|
  {
    hide *;
    if codes == [] {
      NonePut(k, q, zz);
      NoBits(h);
      zz' := zz;
    } else {
      var init, last := Split(codes, k);
      GoingOnIsOk(init);
      LastItem(h, f, pos, init, last);
      zz' := CodesDecode(h, q, f, pos, k, zz, init);
      zz' := NextCode(h, q, f, pos + |ItemsBits(h, ItemsOf(init))|, k, zz, init, last, zz');
    }
  }

  lemma GoingOnIsOk(codes: seq<Code>)
    requires AllGoOn(codes)
    ensures forall i :: 0 <= i < |codes| ==> codes[i].Ok()
  {
  }

  /** A whole block, up to the code that ends it, passes its end or reaches it. A code of size 0 ends
      the block whatever its run is, unless that is 15. */
  lemma AnyBlock(h: Spec, q: seq<int>, f: nat -> byte, pos: nat, zz: seq<int>, codes: seq<Code>, last: Code) returns (zz': seq<int>)
    requires h.Ok() && |q| == |zz| == 64 && AllGoOn(codes) && last.Ok() && Reached(codes, 1) < 64
    requires last.GoesOn() ==> Reached(codes, 1) + last.run >= 63
    requires AllHas(h, ItemsOf(codes + [last])) && Reads(f, pos, ItemsBits(h, ItemsOf(codes + [last])))
    ensures var k, o := Reached(codes, 1), AcFrom(h, q, f, pos, 1, zz);
            && (o == Failed <==> last.GoesOn() && k + last.run > 63)
            && (o != Failed ==>
                  && o == Outcome.Decoded(Block(zz', if last.GoesOn() then 64 else k, pos + |ItemsBits(h, ItemsOf(codes + [last]))|))
                  && Put(if last.GoesOn() then codes + [last] else codes, 1, q, zz, zz'))
  {
    hide *;
    GoingOnIsOk(codes);
    LastItem(h, f, pos, codes, last);
    PartReached(codes, 1);
    zz' := CodesDecode(h, q, f, pos, 1, zz, codes);
    var next := pos + |ItemsBits(h, ItemsOf(codes))|;
    if last.GoesOn() {
      StillGoOn(codes, last);
      ReachedOne(codes, 1, last);
      zz' := NextCode(h, q, f, next, 1, zz, codes, last, zz');
      AcStep(h, q, f, next + |ItemBits(h, last.Sent())|, 64, zz');
    } else {
      OneCode(h, q, f, next, Reached(codes, 1), zz', last);
    }
  }

  lemma StillGoOn(codes: seq<Code>, last: Code)
    requires AllGoOn(codes) && last.Ok() && last.GoesOn()
    ensures AllGoOn(codes + [last])
  {
    hide Code.Ok, Code.GoesOn;
  }

  lemma PartReached(codes: seq<Code>, k: nat)
    ensures codes != [] ==> Reached(codes[..|codes| - 1], k) < Reached(codes, k)
  {
  }

  // ---- bands of progressive scans ----

  /** Every coefficient gets the same weight. */
  function Weights(p1: nat): (w: seq<int>)
    ensures |w| == 64 && forall j :: 0 <= j < 64 ==> w[j] == p1
  {
    seq(64, _ => p1)
  }

  lemma WroteShifted(c: Code, t: nat, p1: nat, zz: seq<int>)
    requires |zz| == 64 && t < 64
    ensures Wrote(c, t, Weights(p1), zz) == if c.size > 0 then zz[t := Shifted(c.Value(), p1)] else zz
  {
    hide Wrap16, Code.Value;
  }

  lemma OneCodeOfBand(h: Spec, f: nat -> byte, pos: nat, k: nat, se: nat, p1: nat, zz: seq<int>, c: Code)
    requires h.Ok() && |zz| == 64 && k <= se < 64 && c.Ok() && c.GoesOn() && Has(h, c.Sent().symbol) && Reads(f, pos, ItemBits(h, c.Sent()))
    ensures var t, next := k + c.run, pos + |ItemBits(h, c.Sent())|;
            FirstFrom(h, f, pos, k, se, p1, zz) ==
            if t >= 64 then Invalid else FirstFrom(h, f, next, t + 1, se, p1, Wrote(c, t, Weights(p1), zz))
  {
    hide *;
    ItemIs(c);
    ReadsExtra(h, f, pos, c.Sent(), c.extra);
    FirstStep(h, f, pos, k, se, p1, zz);
    if k + c.run < 64 {
      WroteShifted(c, k + c.run, p1, zz);
    }
  }

  /** A first scan refuses a band if and only if a code passes the end of the block, not only of the band. */
  lemma {:induction false} BandDecodes(h: Spec, f: nat -> byte, pos: nat, k: nat, se: nat, p1: nat, zz: seq<int>, codes: seq<Code>)
    returns (zz': seq<int>)
    requires h.Ok() && |zz| == 64 && se < 64 && AllGoOn(codes) && AllHas(h, ItemsOf(codes)) && Reads(f, pos, ItemsBits(h, ItemsOf(codes)))
    requires codes != [] ==> Reached(codes[..|codes| - 1], k) <= se
    ensures |zz'| == 64
    ensures if codes != [] && Reached(codes, k) > 64 then FirstFrom(h, f, pos, k, se, p1, zz) == Invalid
            else Put(codes, k, Weights(p1), zz, zz') &&
                 FirstFrom(h, f, pos, k, se, p1, zz) ==
                 FirstFrom(h, f, pos + |ItemsBits(h, ItemsOf(codes))|, Reached(codes, k), se, p1, zz')
    decreases |codes|
  {
    hide *;
    if codes == [] {
      NonePut(k, Weights(p1), zz);
      NoBits(h);
      zz' := zz;
    } else {
      var init, last := Split(codes, k);
      GoingOnIsOk(init);
      LastItem(h, f, pos, init, last);
      ReachedOne(init, k, last);
      var was := BandDecodes(h, f, pos, k, se, p1, zz, init);
      OneCodeOfBand(h, f, pos + |ItemsBits(h, ItemsOf(init))|, Reached(init, k), se, p1, was, last);
      var t := Reached(init, k) + last.run;
      zz' := was;
      if t < 64 {
        zz' := Wrote(last, t, Weights(p1), was);
        PutOne(init, k, last, Weights(p1), zz, was, zz');
      }
    }
  }

  /** In a refinement scan a coefficient can only become 1 or -1: any other size is refused where a code
      word is read. */
  lemma SizesRefused(h: Spec, f: nat -> byte, pos: nat, k: nat, se: nat, p1: nat, zz: seq<int>, control: nat, symbol: byte)
    requires h.Ok() && |zz| == 64 && k <= se < 64 && p1 > 0 && Has(h, symbol) && Reads(f, pos, CodeWord(h, symbol))
    ensures symbol % 16 > 1 ==> Band(h, f, pos, k, se, p1, zz, control) == Refused
  {
    hide Reads, CodeWord, Has, Spec.Ok, SymbolAt, DecodeAt, Window;
    ReadsCode(h, f, pos, symbol);
    BandStep(h, f, pos, k, se, p1, zz, control);
  }
}
