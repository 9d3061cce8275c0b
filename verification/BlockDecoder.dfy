/** Decoding one block of a baseline scan into a coefficient buffer that is never cleared as a
    whole: the body of jpeg_decoder::decode_next_row. */
module BlockDecoder {
  import opened Arith
  import opened BitStream
  import opened BitReaders
  import opened HuffmanTables
  import opened HuffmanTrie
  import opened HuffmanCover
  import opened HuffmanDecode
  import opened IdctTables
  import opened Idcts

  // ---- the reference: T.81 sections F.2.1 and F.2.2 ----

  /** A conversion to jpgd_block_t, which has 16 bits. */
  function Wrap16(x: int): int {
    (x + 0x8000) % 0x1_0000 - 0x8000
  }

  /** A conversion to int, which has 32 bits. */
  function Wrap32(x: int): int {
    (x + 0x8000_0000) % 0x1_0000_0000 - 0x8000_0000
  }

  /** Both keep the value modulo the width, and do not change what fits. */
  lemma WrapsAre(x: int)
    ensures -0x8000 <= Wrap16(x) < 0x8000 && (Wrap16(x) - x) % 0x1_0000 == 0
    ensures -0x8000_0000 <= Wrap32(x) < 0x8000_0000 && (Wrap32(x) - x) % 0x1_0000_0000 == 0
    ensures -0x8000 <= x < 0x8000 ==> Wrap16(x) == x
    ensures -0x8000_0000 <= x < 0x8000_0000 ==> Wrap32(x) == x
  {
  }

  /** EXTEND of T.81 figure F.12: the signed value that s extra bits stand for. */
  function Extend(v: int, s: nat): int {
    if s > 0 && v < Pow2(s - 1) then v - Pow2(s) + 1 else v
  }

  datatype Block = Block(zz: seq<int>, k: int, next: nat)
  datatype Outcome = Failed | Decoded(block: Block)

  /** The AC coefficients from zig-zag position k on, decoded at bit pos of stream f into zz:
      T.81 figure F.13, with dequantisation. */
  ghost function AcFrom(h: Spec, q: seq<int>, f: nat -> byte, pos: nat, k: nat, zz: seq<int>): Outcome
    requires h.Ok() && |q| == |zz| == 64
    decreases 64 - k
  {
    if k >= 64 then Outcome.Decoded(Block(zz, k, pos))
    else
      var d := DecodeAt(h, f, pos);
      var r, s := d.symbol / 16, d.symbol % 16;
      if s != 0 then
        if k + r > 63 then Failed
        else AcFrom(h, q, f, d.next, k + r + 1, zz[k + r := Wrap16(Extend(d.extra, s) * q[k + r])])
      else if r == 15 then
        if k + 16 > 64 then Failed else AcFrom(h, q, f, d.next, k + 16, zz)
      else
        Outcome.Decoded(Block(zz, k, d.next))
  }

  /** The DC coefficient before dequantisation. */
  ghost function DcAt(h: Spec, f: nat -> byte, pos: nat, pred: int): int
    requires h.Ok()
  {
    var d := DecodeAt(h, f, pos);
    Wrap32(Extend(d.extra, d.symbol % 16) + pred)
  }

  /** A block of zeros but for its first coefficient. */
  function DcOnly(v: int): (zz: seq<int>)
    ensures |zz| == 64 && zz[0] == v && forall j :: 1 <= j < 64 ==> zz[j] == 0
  {
    seq(64, j => if j == 0 then v else 0)
  }

  /** A whole block, decoded into a block of zeros. */
  ghost function BlockAt(dc: Spec, ac: Spec, q: seq<int>, f: nat -> byte, pos: nat, pred: int): Outcome
    requires dc.Ok() && ac.Ok() && |q| == 64
  {
    AcFrom(ac, q, f, DecodeAt(dc, f, pos).next, 1, DcOnly(Wrap16(DcAt(dc, f, pos, pred) * q[0])))
  }

  /** The coefficients in the order of the block. */
  function InPlace(zz: seq<int>): (b: seq<int>)
    requires |zz| == 64
    ensures |b| == 64
  {
    seq(64, i => zz[Unzag(i)])
  }

  /** The coefficient of zig-zag position k is at the place that the zig-zag order gives it. */
  lemma InPlaceAt(b: seq<int>, zz: seq<int>, k: nat)
    requires |zz| == 64 && k < 64 && b == InPlace(zz)
    ensures b[Zag(k)] == zz[k]
  {
    hide Zag, Unzag;
    ZagUnzag(k);
  }

  /** What lies at or beyond the last position decoded is as it was before. */
  lemma {:induction false} AcFromKeepsRest(h: Spec, q: seq<int>, f: nat -> byte, pos: nat, k: nat, zz: seq<int>)
    requires h.Ok() && |q| == |zz| == 64 && k <= 64
    ensures var o := AcFrom(h, q, f, pos, k, zz);
            o.Decoded? ==> |o.block.zz| == 64 && k <= o.block.k <= 64 &&
                           forall j :: 0 <= j < 64 && (j < k || o.block.k <= j) ==> o.block.zz[j] == zz[j]
    decreases 64 - k
  {
    hide DecodeAt, Wrap16, Extend;
    if k < 64 {
      var d := DecodeAt(h, f, pos);
      var r, s := d.symbol / 16, d.symbol % 16;
      if s != 0 {
        if k + r <= 63 {
          AcFromKeepsRest(h, q, f, d.next, k + r + 1, zz[k + r := Wrap16(Extend(d.extra, s) * q[k + r])]);
        }
      } else if r == 15 && k + 16 <= 64 {
        AcFromKeepsRest(h, q, f, d.next, k + 16, zz);
      }
    }
  }

  // ---- the block as the source fills it ----

  /** The buffer b holds the coefficients zz up to position k; between k and prev it may still
      hold what an earlier block left; beyond both it is zero. */
  ghost predicate Filled(b: seq<int>, zz: seq<int>, k: int, prev: int)
    requires |b| == |zz| == 64
  {
    && (forall j :: 0 <= j < k && j < 64 ==> b[Zag(j)] == zz[j])
    && (forall j :: 0 <= j < 64 && k <= j && prev <= j ==> b[Zag(j)] == 0)
    && forall j :: k <= j < 64 && 0 <= j ==> zz[j] == 0
  }

  lemma ZagApart(i: int, j: int)
    requires 0 <= i < 64 && 0 <= j < 64 && Zag(i) == Zag(j)
    ensures i == j
  {
    hide Zag, Unzag;
    ZagUnzag(i);
    ZagUnzag(j);
  }

  /** Writing position k: the coefficient is decoded there. */
  lemma FillOne(b: seq<int>, zz: seq<int>, k: int, prev: int, v: int)
    requires |b| == |zz| == 64 && 0 <= k < 64 && Filled(b, zz, k, prev)
    ensures Filled(b[Zag(k) := v], zz[k := v], k + 1, prev)
  {
    hide Zag;
    forall j | 0 <= j < 64 && j != k
      ensures b[Zag(k) := v][Zag(j)] == b[Zag(j)]
    {
      if Zag(j) == Zag(k) {
        ZagApart(j, k);
      }
    }
  }

  lemma FilledIsInPlace(b: seq<int>, zz: seq<int>, prev: int)
    requires |b| == |zz| == 64 && Filled(b, zz, 64, prev)
    ensures b == InPlace(zz)
  {
    hide Zag, Unzag;
    forall i | 0 <= i < 64
      ensures b[i] == InPlace(zz)[i]
    {
      ZagUnzag(i);
    }
  }

  /** Writes the coefficient of zig-zag position k. */
  method Store(p: array<int>, at: nat, k: int, v: int, prev: int, ghost zz: seq<int>)
    requires at + 64 <= p.Length && |zz| == 64 && 0 <= k < 64 && Filled(p[at..at + 64], zz, k, prev)
    modifies p
    ensures Filled(p[at..at + 64], zz[k := v], k + 1, prev)
    ensures forall i :: 0 <= i < p.Length && !(at <= i < at + 64) ==> p[i] == old(p[i])
  {
    hide Zag, Filled;
    FillOne(p[at..at + 64], zz, k, prev, v);
    Slot(p[..], at, Zag(k), v);
    p[at + Zag(k)] := v;
  }

  /** Clears the positions from k up to k + n that an earlier block may have left non-zero. */
  method ClearRun(p: array<int>, at: nat, k: int, n: int, prev: int, ghost zz: seq<int>)
    requires at + 64 <= p.Length && |zz| == 64 && 0 <= k && 0 <= n && k + n <= 64 && prev <= 64
    requires Filled(p[at..at + 64], zz, k, prev)
    modifies p
    ensures Filled(p[at..at + 64], zz, k + n, prev)
    ensures forall i :: 0 <= i < p.Length && !(at <= i < at + 64) ==> p[i] == old(p[i])
  {
    hide Zag, Filled;
    ghost var done := k;
    if k < prev {
      var m := if n < prev - k then n else prev - k;
      var kt := k;
      while m > 0
        invariant 0 <= m && k <= kt && kt + m == k + if n < prev - k then n else prev - k
        invariant Filled(p[at..at + 64], zz, kt, prev)
        invariant forall i :: 0 <= i < p.Length && !(at <= i < at + 64) ==> p[i] == old(p[i])
      {
        ZeroTail(p[at..at + 64], zz, kt, prev);
        Store(p, at, kt, 0, prev, zz);
        kt := kt + 1;
        m := m - 1;
      }
      done := kt;
    }
    SkipRest(p[at..at + 64], zz, done, k + n, prev);
  }

  lemma ZeroTail(b: seq<int>, zz: seq<int>, k: int, prev: int)
    requires |b| == |zz| == 64 && 0 <= k < 64 && Filled(b, zz, k, prev)
    ensures zz[k := 0] == zz
  {
  }

  /** One element of a slice. */
  lemma Slot(s: seq<int>, at: nat, i: nat, v: int)
    requires at + 64 <= |s| && i < 64
    ensures s[at + i := v][at..at + 64] == s[at..at + 64][i := v]
  {
  }

  lemma {:induction false} SkipRest(b: seq<int>, zz: seq<int>, k: int, to: int, prev: int)
    requires |b| == |zz| == 64 && 0 <= k <= to <= 64 && (k < to ==> prev <= k) && Filled(b, zz, k, prev)
    ensures Filled(b, zz, to, prev)
  {
  }

  /** The AC part of a block, from zig-zag position 1 on. Returns the position reached, or
      nothing if the data are invalid. */
  method DecodeAc(r: BitReader, t: HuffTables, ghost h: Spec, q: seq<int>, p: array<int>, at: nat, prev: int, ghost zz0: seq<int>)
    returns (ok: bool, k: int, ghost zz: seq<int>)
    requires h.Ok() && t.Represents(h.lens, h.vals) && r.InEntropySegment() && |q| == |zz0| == 64
    requires at + 64 <= p.Length && prev <= 64 && Disjoint(p, t)
    requires Filled(p[at..at + 64], zz0, 1, prev)
    modifies r, p
    ensures r.InEntropySegment() && r.octets == old(r.octets) && r.source == old(r.source)
    ensures AcFrom(h, q, r.octets, old(r.Position()), 1, zz0) ==
            if ok then Outcome.Decoded(Block(zz, k, r.Position())) else Failed
    ensures ok ==> 1 <= k <= 64 && |zz| == 64 && Filled(p[at..at + 64], zz, k, prev)
    ensures forall i :: 0 <= i < p.Length && !(at <= i < at + 64) ==> p[i] == old(p[i])
  {
    hide Zag, Filled, DecodeAt, Extend, Wrap16, AcFrom, Entropy, Buffer;
    hide Covers, SizesOf, Trie.Ok, Trie.Stored, Trie.Looks, BitReader.InEntropySegment;
    k := 1;
    zz := zz0;
    var more := true;
    ghost var f := r.octets;
    r.PositionIsNat();
    while k < 64 && more
      invariant 1 <= k <= 64 && |zz| == 64
      invariant r.InEntropySegment() && r.octets == f && r.source == old(r.source) && 0 <= r.Position()
      invariant t.Represents(h.lens, h.vals)
      invariant Filled(p[at..at + 64], zz, k, prev)
      invariant AcFrom(h, q, f, old(r.Position()), 1, zz0) ==
                if more then AcFrom(h, q, f, r.Position(), k, zz) else Outcome.Decoded(Block(zz, k, r.Position()))
      invariant forall i :: 0 <= i < p.Length && !(at <= i < at + 64) ==> p[i] == old(p[i])
      decreases 64 - k, more
    {
      AcStep(h, q, f, r.Position(), k, zz);
      var symbol, extraBits := HuffDecode2(r, t, h);
      var run, s := symbol / 16, symbol % 16;
      if s != 0 {
        if run != 0 {
          if k + run > 63 {
            return false, k, zz;
          }
          ClearRun(p, at, k, run, prev, zz);
          k := k + run;
        }
        var v := Wrap16(Extend(extraBits, s) * q[k]);
        Store(p, at, k, v, prev, zz);
        zz := zz[k := v];
        k := k + 1;
      } else {
        if run == 15 {
          if k + 16 > 64 {
            return false, k, zz;
          }
          ClearRun(p, at, k, 16, prev, zz);
          k := k + 16;
        } else {
          more := false;
        }
      }
    }
    if more {
      AcStep(h, q, f, r.Position(), k, zz);
    }
    ok := true;
  }

  ghost predicate Disjoint(p: array<int>, t: HuffTables) {
    p != t.lookUp && p != t.lookUp2 && p != t.codeSize && p != t.tree
  }

  /** One step of the reference. */
  lemma AcStep(h: Spec, q: seq<int>, f: nat -> byte, pos: nat, k: nat, zz: seq<int>)
    requires h.Ok() && |q| == |zz| == 64
    ensures AcFrom(h, q, f, pos, k, zz) ==
            if k >= 64 then Outcome.Decoded(Block(zz, k, pos))
            else
              var d := DecodeAt(h, f, pos);
              var r, s := d.symbol / 16, d.symbol % 16;
              if s != 0 then
                if k + r > 63 then Failed
                else AcFrom(h, q, f, d.next, k + r + 1, zz[k + r := Wrap16(Extend(d.extra, s) * q[k + r])])
              else if r == 15 then
                if k + 16 > 64 then Failed else AcFrom(h, q, f, d.next, k + 16, zz)
              else
                Outcome.Decoded(Block(zz, k, d.next))
  {
  }

  /** One block of decode_next_row. Whatever an earlier block left in the buffer, it ends up
      with exactly the coefficients of the reference, and maxZag still bounds the non-zero ones. */
  method DecodeBlock(r: BitReader, tdc: HuffTables, tac: HuffTables, ghost dc: Spec, ghost ac: Spec, q: seq<int>,
                     pred: int, p: array<int>, at: nat, prev: int)
    returns (ok: bool, dcVal: int, maxZag: int)
    requires dc.Ok() && ac.Ok() && tdc.Represents(dc.lens, dc.vals) && tac.Represents(ac.lens, ac.vals)
    requires r.InEntropySegment() && |q| == 64
    requires at + 64 <= p.Length && 1 <= prev <= 64 && Disjoint(p, tdc) && Disjoint(p, tac)
    requires ZeroFrom(p[at..at + 64], prev)
    modifies r, p
    ensures r.InEntropySegment() && r.octets == old(r.octets) && r.source == old(r.source)
    ensures var o := BlockAt(dc, ac, q, r.octets, old(r.Position()), pred);
            && ok == o.Decoded?
            && (ok ==>
                 && r.Position() == o.block.next && maxZag == o.block.k && |o.block.zz| == 64
                 && p[at..at + 64] == InPlace(o.block.zz))
    ensures ok ==> 1 <= maxZag <= 64 && ZeroFrom(p[at..at + 64], maxZag)
    ensures ok ==> dcVal == DcAt(dc, r.octets, old(r.Position()), pred)
    ensures forall i :: 0 <= i < p.Length && !(at <= i < at + 64) ==> p[i] == old(p[i])
  {
    hide Zag, Filled, DcOnly, DecodeAt, Extend, Wrap16, Wrap32, AcFrom, ZeroFrom, InPlace, Entropy, Buffer;
    hide Covers, SizesOf, Trie.Ok, Trie.Stored, Trie.Looks, BitReader.InEntropySegment;
    r.PositionIsNat();
    var s, extra := HuffDecode2(r, tdc, dc);
    dcVal := Wrap32(Extend(extra, s % 16) + pred);
    var v := Wrap16(dcVal * q[0]);
    ghost var zz := DcOnly(v);
    StartBlock(p[at..at + 64], v, prev);
    Slot(p[..], at, Zag(0), v);
    FirstRow();
    p[at] := v;
    ghost var zz';
    ok, maxZag, zz' := DecodeAc(r, tac, ac, q, p, at, prev, zz);
    if ok {
      ClearRun(p, at, maxZag, 64 - maxZag, prev, zz');
      FilledIsInPlace(p[at..at + 64], zz', prev);
      AcFromKeepsRest(ac, q, r.octets, DecodeAt(dc, r.octets, old(r.Position())).next, 1, zz);
      NothingBeyond(p[at..at + 64], zz', maxZag, prev);
    }
  }

  lemma StartBlock(b: seq<int>, v: int, prev: int)
    requires |b| == 64 && 1 <= prev <= 64 && ZeroFrom(b, prev)
    ensures Filled(b[Zag(0) := v], DcOnly(v), 1, prev)
  {
    hide Zag;
    forall j | 1 <= j < 64
      ensures b[Zag(0) := v][Zag(j)] == b[Zag(j)]
    {
      if Zag(j) == Zag(0) {
        ZagApart(j, 0);
      }
    }
  }

  lemma NothingBeyond(b: seq<int>, zz: seq<int>, k: int, prev: int)
    requires |b| == |zz| == 64 && 1 <= k <= 64 && Filled(b, zz, 64, prev)
    requires forall j :: k <= j < 64 ==> zz[j] == 0
    ensures ZeroFrom(b, k)
  {
  }
}
