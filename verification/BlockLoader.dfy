/** What load_next_row does to one block of a progressive image: its coefficients are put together
    and multiplied by the steps of their quantisation. */
module BlockLoader {
  import opened IdctTables
  import opened Idcts
  import opened BlockDecoder

  /** The DC coefficient of one buffer and the AC coefficients of the other. */
  function Joined(dc: int, ac: seq<int>): (b: seq<int>)
    requires |ac| == 64
    ensures |b| == 64
  {
    [dc] + ac[1..]
  }

  /** The coefficients in zig-zag order, each times its step. */
  function Dequantized(b: seq<int>, q: seq<int>): (zz: seq<int>)
    requires |b| == |q| == 64
    ensures |zz| == 64
  {
    seq(64, (j: nat) requires j < 64 => Wrap16(b[Zag(j)] * q[j]))
  }

  /** Of the block b the positions from i on have been multiplied, which changes no zero. */
  ghost predicate DoneFrom(now: seq<int>, b: seq<int>, q: seq<int>, i: int)
    requires |now| == |b| == |q| == 64
  {
    forall j :: 0 <= j < 64 ==> now[Zag(j)] == if j < i then b[Zag(j)] else Wrap16(b[Zag(j)] * q[j])
  }

  lemma OneDone(now: seq<int>, b: seq<int>, q: seq<int>, i: int, v: int)
    requires |now| == |b| == |q| == 64 && 0 <= i < 64 && DoneFrom(now, b, q, i + 1)
    requires v == Wrap16(b[Zag(i)] * q[i])
    ensures DoneFrom(now[Zag(i) := v], b, q, i)
  {
    hide Zag, Wrap16;
    forall j | 0 <= j < 64 && j != i
      ensures Zag(j) != Zag(i)
    {
      if Zag(j) == Zag(i) {
        ZagApart(i, j);
      }
    }
  }

  lemma ZeroStays(step: int)
    ensures Wrap16(0 * step) == 0
  {
  }

  lemma ZerosDone(b: seq<int>, q: seq<int>, i: int)
    requires |b| == |q| == 64 && ZeroFrom(b, i)
    ensures DoneFrom(b, b, q, i)
  {
    hide Zag, Wrap16;
    forall j | 0 <= j < 64 && j >= i
      ensures b[Zag(j)] == Wrap16(b[Zag(j)] * q[j])
    {
      ZeroStays(q[j]);
    }
  }

  lemma ZeroKept(now: seq<int>, b: seq<int>, q: seq<int>, i: int)
    requires |now| == |b| == |q| == 64 && 0 <= i < 64 && DoneFrom(now, b, q, i + 1) && b[Zag(i)] == 0
    ensures DoneFrom(now, b, q, i)
  {
    hide Zag, Wrap16;
    ZeroStays(q[i]);
  }

  lemma AllDone(now: seq<int>, b: seq<int>, q: seq<int>, m: int)
    requires |now| == |b| == |q| == 64 && DoneFrom(now, b, q, 0) && ZeroFrom(b, m)
    ensures now == InPlace(Dequantized(b, q)) && ZeroFrom(now, m)
  {
    hide Zag, Unzag, Wrap16;
    forall i | 0 <= i < 64
      ensures now[i] == InPlace(Dequantized(b, q))[i]
    {
      ZagUnzag(i);
    }
    forall j | 0 <= j < 64 && m <= j
      ensures now[Zag(j)] == 0
    {
      ZeroStays(q[j]);
    }
  }

  lemma OneMoreZero(b: seq<int>, i: int)
    requires |b| == 64 && 0 <= i < 64 && ZeroFrom(b, i + 1) && b[Zag(i)] == 0
    ensures ZeroFrom(b, i)
  {
    hide Zag;
  }

  /** The DC coefficient is the first one, and no other. */
  lemma DcFirst(dc: int, ac: seq<int>, j: int)
    requires |ac| == 64 && 0 < j < 64
    ensures Zag(j) > 0 && Joined(dc, ac)[Zag(j)] == ac[Zag(j)]
  {
    assert Zag(0) == 0;
    hide Zag;
    if Zag(j) == 0 {
      ZagApart(j, 0);
    }
  }

  method Join(dcs: array<int>, dc: nat, acs: array<int>, ac: nat, p: array<int>, at: nat)
    requires dc < dcs.Length && ac + 64 <= acs.Length && at + 64 <= p.Length && p != dcs && p != acs
    modifies p
    ensures p[at..at + 64] == Joined(dcs[dc], acs[ac..ac + 64])
    ensures forall i :: 0 <= i < p.Length && !(at <= i < at + 64) ==> p[i] == old(p[i])
  {
    p[at] := dcs[dc];
    var k := 1;
    while k < 64
      invariant 1 <= k <= 64 && p[at] == dcs[dc]
      invariant forall i :: at < i < at + k ==> p[i] == acs[i - at + ac]
      invariant forall i :: 0 <= i < p.Length && !(at <= i < at + 64) ==> p[i] == old(p[i])
    {
      p[at + k] := acs[ac + k];
      k := k + 1;
    }
  }

  /** One block for the inverse transform, with a bound on its coefficients that is as small as the
      stored AC coefficients allow. */
  method LoadBlock(dcs: array<int>, dc: nat, acs: array<int>, ac: nat, q: seq<int>, p: array<int>, at: nat) returns (maxZag: int)
    requires dc < dcs.Length && ac + 64 <= acs.Length && at + 64 <= p.Length && p != dcs && p != acs && |q| == 64
    modifies p
    ensures p[at..at + 64] == InPlace(Dequantized(Joined(dcs[dc], acs[ac..ac + 64]), q))
    ensures forall j: nat :: j < 64 ==> p[at + Zag(j)] == Wrap16((if j == 0 then dcs[dc] else acs[ac + Zag(j)]) * q[j])
    ensures 1 <= maxZag <= 64 && ZeroFrom(p[at..at + 64], maxZag)
    ensures maxZag > 1 ==> acs[ac + Zag(maxZag - 1)] != 0
    ensures forall i :: 0 <= i < p.Length && !(at <= i < at + 64) ==> p[i] == old(p[i])
  {
    hide Zag, Joined, Dequantized, InPlace, DoneFrom, ZeroFrom, Wrap16;
    Join(dcs, dc, acs, ac, p, at);
    ghost var b := p[at..at + 64];
    NoneLeft(b);
    var i := 63;
    while i > 0 && p[at + Zag(i)] == 0
      modifies {}
      invariant 0 <= i < 64 && ZeroFrom(b, i + 1)
    {
      assert b[Zag(i)] == p[at + Zag(i)];
      OneMoreZero(b, i);
      i := i - 1;
    }
    if i > 0 {
      assert b[Zag(i)] == p[at + Zag(i)];
      DcFirst(dcs[dc], acs[ac..ac + 64], i);
    }
    maxZag := i + 1;
    ZerosDone(b, q, i + 1);
    assert p[at..at + 64] == b;
    while i >= 0
      invariant -1 <= i < 64 && DoneFrom(p[at..at + 64], b, q, i + 1)
      invariant forall j :: 0 <= j < p.Length && !(at <= j < at + 64) ==> p[j] == old(p[j])
    {
      AsBefore(p[at..at + 64], b, q, i);
      if p[at + Zag(i)] != 0 {
        ghost var now := p[at..at + 64];
        var v := Wrap16(p[at + Zag(i)] * q[i]);
        OneDone(now, b, q, i, v);
        Slot(p[..], at, Zag(i), v);
        p[at + Zag(i)] := v;
      } else {
        ZeroKept(p[at..at + 64], b, q, i);
      }
      i := i - 1;
    }
    AllDone(p[at..at + 64], b, q, maxZag);
    forall j: nat | j < 64
      ensures p[at + Zag(j)] == Wrap16((if j == 0 then dcs[dc] else acs[ac + Zag(j)]) * q[j])
    {
      EachDequantized(p[at..at + 64], dcs[dc], acs[ac..ac + 64], q, j);
    }
  }

  /** The coefficient of zig-zag position j. */
  lemma EachDequantized(p: seq<int>, dc: int, ac: seq<int>, q: seq<int>, j: nat)
    requires |p| == |ac| == |q| == 64 && j < 64 && p == InPlace(Dequantized(Joined(dc, ac), q))
    ensures p[Zag(j)] == Wrap16((if j == 0 then dc else ac[Zag(j)]) * q[j])
  {
    InPlaceAt(p, Dequantized(Joined(dc, ac), q), j);
    assert Zag(0) == 0;
    if j > 0 {
      DcFirst(dc, ac, j);
    }
    hide Zag, Wrap16;
  }

  lemma NoneLeft(b: seq<int>)
    requires |b| == 64
    ensures ZeroFrom(b, 64)
  {
  }

  lemma AsBefore(now: seq<int>, b: seq<int>, q: seq<int>, i: int)
    requires |now| == |b| == |q| == 64 && 0 <= i < 64 && DoneFrom(now, b, q, i + 1)
    ensures now[Zag(i)] == b[Zag(i)]
  {
  }
}
