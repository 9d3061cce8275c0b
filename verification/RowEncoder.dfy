/** The encoder's side of a baseline scan, ITU-T T.81 sections F.1.1 and B.1.1.5: MCUs, restart
    intervals and byte stuffing; and that decoding its bytes gives every block back. */
module RowEncoder {
  import opened Arith
  import opened BitStream
  import opened HuffmanDecode
  import opened Idcts
  import opened BlockDecoder
  import opened RowDecoder
  import opened BitCode
  import opened BlockEncoder

  // ---- one MCU ----

  /** The blocks of an MCU from block b on can be coded, with these DC predictions. */
  ghost predicate CanCodeMcu(s: Scan, b: nat, blocks: seq<seq<int>>, preds: seq<int>)
    requires s.Ok() && b <= |s.mcuOrg| && |preds| == |s.dc|
    decreases |s.mcuOrg| - b
  {
    |blocks| == |s.mcuOrg| &&
    (b < |s.mcuOrg| ==>
       var c := s.mcuOrg[b];
       |blocks[b]| == 64 && CanCode(s.dc[c], s.ac[c], blocks[b], preds[c]) &&
       CanCodeMcu(s, b + 1, blocks, preds[c := blocks[b][0]]))
  }

  ghost function McuBits(s: Scan, b: nat, blocks: seq<seq<int>>, preds: seq<int>): seq<bool>
    requires s.Ok() && b <= |s.mcuOrg| && |preds| == |s.dc| && CanCodeMcu(s, b, blocks, preds)
    decreases |s.mcuOrg| - b
  {
    if b == |s.mcuOrg| then []
    else
      var c := s.mcuOrg[b];
      BlockBits(s.dc[c], s.ac[c], blocks[b], preds[c]) + McuBits(s, b + 1, blocks, preds[c := blocks[b][0]])
  }

  /** The last DC coefficient of each component is the next prediction. */
  ghost function PredsAfter(s: Scan, b: nat, blocks: seq<seq<int>>, preds: seq<int>): (r: seq<int>)
    requires s.Ok() && b <= |s.mcuOrg| && |preds| == |s.dc|
    ensures |r| == |s.dc|
    decreases |s.mcuOrg| - b
  {
    if b == |s.mcuOrg| || b >= |blocks| || blocks[b] == [] then preds
    else PredsAfter(s, b + 1, blocks, preds[s.mcuOrg[b] := blocks[b][0]])
  }

  /** Block j of an MCU, its coefficients times their steps and in the order of the block. */
  ghost predicate RecoveredAt(s: Scan, j: nat, blocks: seq<seq<int>>, block: seq<int>)
    requires s.Ok() && j < |s.mcuOrg| == |blocks|
  {
    |blocks[j]| == 64 && block == InPlace(Scaled(blocks[j], s.quant[s.mcuOrg[j]]))
  }

  ghost predicate Recovered(s: Scan, b: nat, blocks: seq<seq<int>>, decoded: seq<seq<int>>)
    requires s.Ok() && b <= |s.mcuOrg| == |blocks|
  {
    && |decoded| == |s.mcuOrg| - b
    && forall i: nat :: i < |decoded| ==> RecoveredAt(s, b + i, blocks, decoded[i])
  }

  lemma McuSplit(s: Scan, b: nat, blocks: seq<seq<int>>, preds: seq<int>)
    requires s.Ok() && b < |s.mcuOrg| && |preds| == |s.dc| && CanCodeMcu(s, b, blocks, preds)
    ensures var c := s.mcuOrg[b];
            && |blocks| == |s.mcuOrg| && c < |s.dc| == |s.ac| == |s.quant| && s.dc[c].Ok() && s.ac[c].Ok()
            && |blocks[b]| == |s.quant[c]| == 64
            && CanCode(s.dc[c], s.ac[c], blocks[b], preds[c])
            && var after := preds[c := blocks[b][0]];
               && CanCodeMcu(s, b + 1, blocks, after)
               && McuBits(s, b, blocks, preds) == BlockBits(s.dc[c], s.ac[c], blocks[b], preds[c]) + McuBits(s, b + 1, blocks, after)
               && PredsAfter(s, b, blocks, preds) == PredsAfter(s, b + 1, blocks, after)
  {
    hide CanCode, BlockBits, Spec.Ok;
  }

  lemma RecoverOne(s: Scan, b: nat, blocks: seq<seq<int>>, rest: seq<seq<int>>)
    requires s.Ok() && b < |s.mcuOrg| == |blocks| && |blocks[b]| == 64 && Recovered(s, b + 1, blocks, rest)
    ensures Recovered(s, b, blocks, [InPlace(Scaled(blocks[b], s.quant[s.mcuOrg[b]]))] + rest)
  {
    var all := [InPlace(Scaled(blocks[b], s.quant[s.mcuOrg[b]]))] + rest;
    assert RecoveredAt(s, b, blocks, all[0]);
    hide InPlace, Scaled, Spec.Ok, RecoveredAt, Scan.Ok;
    forall i: nat | i < |all|
      ensures RecoveredAt(s, b + i, blocks, all[i])
    {
      if i > 0 {
        assert all[i] == rest[i - 1] && b + i == b + 1 + (i - 1);
      }
    }
  }

  lemma MatchMcu(s: Scan, b: nat, st: State)
    requires s.Ok() && b < |s.mcuOrg| && |st.preds| == |s.dc|
    requires BlockOf(s, b, st).Decoded? && |BlockOf(s, b, st).block.zz| == 64
    ensures McuFrom(s, b, st) == Prepend([InPlace(BlockOf(s, b, st).block.zz)], McuFrom(s, b + 1, AfterBlock(s, b, st)))
  {
    hide BlockOf, AfterBlock, InPlace, Spec.Ok;
  }

  /** One block of an MCU, as the reference of RowDecoder has it. */
  lemma McuFromIs(s: Scan, b: nat, st: State, zz: seq<int>, k: int, next: nat, dc: int)
    requires s.Ok() && b < |s.mcuOrg| && |st.preds| == |s.dc| && |zz| == 64
    requires var c := s.mcuOrg[b];
             && BlockAt(s.dc[c], s.ac[c], s.quant[c], st.f, st.pos, st.preds[c]) == Outcome.Decoded(Block(zz, k, next))
             && DcAt(s.dc[c], st.f, st.pos, st.preds[c]) == dc
    ensures var after := State(st.f, next, st.preds[s.mcuOrg[b] := dc]);
            McuFrom(s, b, st) == Prepend([InPlace(zz)], McuFrom(s, b + 1, after))
  {
    hide BlockAt, DcAt, InPlace, Spec.Ok;
    assert BlockOf(s, b, st) == Outcome.Decoded(Block(zz, k, next));
    assert AfterBlock(s, b, st) == State(st.f, next, st.preds[s.mcuOrg[b] := dc]);
    MatchMcu(s, b, st);
  }

  lemma McuOver(s: Scan, st: State, blocks: seq<seq<int>>)
    requires s.Ok() && |st.preds| == |s.dc| && CanCodeMcu(s, |s.mcuOrg|, blocks, st.preds)
    ensures McuFrom(s, |s.mcuOrg|, st) == McuDone([], st) && |blocks| == |s.mcuOrg| && Recovered(s, |s.mcuOrg|, blocks, [])
    ensures McuBits(s, |s.mcuOrg|, blocks, st.preds) == [] && PredsAfter(s, |s.mcuOrg|, blocks, st.preds) == st.preds
  {
    hide BlockAt, DcAt, Spec.Ok;
  }

  /** Decoding an MCU gives back each of its blocks, and ends behind its last bit with the predictions
      that its DC coefficients make. */
  lemma {:induction false} McuDecodes(s: Scan, b: nat, st: State, blocks: seq<seq<int>>) returns (decoded: seq<seq<int>>)
    requires s.Ok() && b <= |s.mcuOrg| && |st.preds| == |s.dc| && CanCodeMcu(s, b, blocks, st.preds)
    requires Reads(st.f, st.pos, McuBits(s, b, blocks, st.preds))
    ensures |blocks| == |s.mcuOrg| && Recovered(s, b, blocks, decoded)
    ensures McuFrom(s, b, st) ==
            McuDone(decoded, State(st.f, st.pos + |McuBits(s, b, blocks, st.preds)|, PredsAfter(s, b, blocks, st.preds)))
    decreases |s.mcuOrg| - b
  {
    hide *;
    if b == |s.mcuOrg| {
      McuOver(s, st, blocks);
      decoded := [];
    } else {
      McuSplit(s, b, blocks, st.preds);
      var c := s.mcuOrg[b];
      var bits := BlockBits(s.dc[c], s.ac[c], blocks[b], st.preds[c]);
      var after := State(st.f, st.pos + |bits|, st.preds[c := blocks[b][0]]);
      ReadsSplit(st.f, st.pos, bits, McuBits(s, b + 1, blocks, after.preds));
      BlockDecodes(s.dc[c], s.ac[c], s.quant[c], st.f, st.pos, blocks[b], st.preds[c]);
      McuFromIs(s, b, st, Scaled(blocks[b], s.quant[c]), Behind(blocks[b], 1, 64), after.pos, blocks[b][0]);
      var rest := McuDecodes(s, b + 1, after, blocks);
      RecoverOne(s, b, blocks, rest);
      decoded := [InPlace(Scaled(blocks[b], s.quant[c]))] + rest;
      PrependOne(InPlace(Scaled(blocks[b], s.quant[c])), rest, after, McuFrom(s, b + 1, after));
    }
  }

  lemma PrependOne(block: seq<int>, rest: seq<seq<int>>, st: State, o: McuOutcome)
    ensures o.McuDone? ==> Prepend([block], o) == McuDone([block] + o.blocks, o.state)
  {
  }

  // ---- a segment ----

  /** The bits of a segment, and the predictions that it ends with. */
  datatype Code = NoCode | Code(bits: seq<bool>, preds: seq<int>)

  /** MCUs coded one after the other, from predictions of zero. */
  ghost function Segment(s: Scan, mcus: seq<seq<seq<int>>>): (c: Code)
    requires s.Ok()
    ensures c.Code? ==> |c.preds| == |s.dc|
  {
    if mcus == [] then Code([], seq(|s.dc|, _ => 0)) else AddMcu(s, Segment(s, mcus[..|mcus| - 1]), mcus[|mcus| - 1])
  }

  ghost function AddMcu(s: Scan, c: Code, blocks: seq<seq<int>>): (r: Code)
    requires s.Ok() && (c.Code? ==> |c.preds| == |s.dc|)
    ensures r.Code? ==> |r.preds| == |s.dc|
  {
    if c.Code? && CanCodeMcu(s, 0, blocks, c.preds)
    then Code(c.bits + McuBits(s, 0, blocks, c.preds), PredsAfter(s, 0, blocks, c.preds))
    else NoCode
  }

  lemma SegmentStep(s: Scan, mcus: seq<seq<seq<int>>>, m: nat)
    requires s.Ok() && m < |mcus|
    ensures Segment(s, mcus[..m + 1]) == AddMcu(s, Segment(s, mcus[..m]), mcus[m])
  {
    hide AddMcu, Scan.Ok;
    assert mcus[..m + 1][..m] == mcus[..m];
  }

  /** The first m MCUs are there, too. */
  lemma {:induction false} PrefixReads(s: Scan, mcus: seq<seq<seq<int>>>, m: nat, n: nat, f: nat -> byte)
    requires s.Ok() && m <= n <= |mcus| && Segment(s, mcus[..n]).Code? && Reads(f, 0, Segment(s, mcus[..n]).bits)
    ensures Segment(s, mcus[..m]).Code? && Reads(f, 0, Segment(s, mcus[..m]).bits)
    decreases n - m
  {
    hide *;
    if m < n {
      SegmentStep(s, mcus, n - 1);
      AddMcuReads(s, Segment(s, mcus[..n - 1]), mcus[n - 1], f);
      PrefixReads(s, mcus, m, n - 1, f);
    }
  }

  lemma AddMcuReads(s: Scan, c: Code, blocks: seq<seq<int>>, f: nat -> byte)
    requires s.Ok() && (c.Code? ==> |c.preds| == |s.dc|) && AddMcu(s, c, blocks).Code? && Reads(f, 0, AddMcu(s, c, blocks).bits)
    ensures c.Code? && |c.preds| == |s.dc| && Reads(f, 0, c.bits) && CanCodeMcu(s, 0, blocks, c.preds)
    ensures Reads(f, |c.bits|, McuBits(s, 0, blocks, c.preds))
    ensures AddMcu(s, c, blocks) == Code(c.bits + McuBits(s, 0, blocks, c.preds), PredsAfter(s, 0, blocks, c.preds))
  {
    hide Reads, CanCodeMcu, McuBits, PredsAfter, Scan.Ok;
    ReadsSplit(f, 0, c.bits, McuBits(s, 0, blocks, c.preds));
  }

  /** MCU number m of a segment, decoded where the m before it end. */
  lemma McuOfSegment(s: Scan, mcus: seq<seq<seq<int>>>, m: nat, f: nat -> byte) returns (decoded: seq<seq<int>>)
    requires s.Ok() && m < |mcus| && Segment(s, mcus).Code? && Reads(f, 0, Segment(s, mcus).bits)
    ensures |mcus[m]| == |s.mcuOrg| && Recovered(s, 0, mcus[m], decoded)
    ensures var a, z := Segment(s, mcus[..m]), Segment(s, mcus[..m + 1]);
            && a.Code? && z.Code? && |a.preds| == |s.dc|
            && McuFrom(s, 0, State(f, |a.bits|, a.preds)) == McuDone(decoded, State(f, |z.bits|, z.preds))
  {
    hide *;
    assert mcus[..|mcus|] == mcus;
    PrefixReads(s, mcus, m + 1, |mcus|, f);
    SegmentStep(s, mcus, m);
    var a := Segment(s, mcus[..m]);
    SegmentPreds(s, mcus[..m]);
    AddMcuReads(s, a, mcus[m], f);
    decoded := McuDecodes(s, 0, State(f, |a.bits|, a.preds), mcus[m]);
  }

  lemma SegmentPreds(s: Scan, mcus: seq<seq<seq<int>>>)
    requires s.Ok()
    ensures Segment(s, mcus).Code? ==> |Segment(s, mcus).preds| == |s.dc|
  {
  }

  // ---- octets ----

  /** Bit j, and ones behind the last one. */
  function BitOf(bits: seq<bool>, j: nat): (b: nat)
    ensures b <= 1
  {
    if j < |bits| && !bits[j] then 0 else 1
  }

  function EightBits(bits: seq<bool>, i: nat): (b: seq<nat>)
    ensures |b| == 8 && forall r :: 0 <= r < 8 ==> b[r] == BitOf(bits, 8 * i + r)
  {
    seq<nat>(8, (r: nat) => BitOf(bits, 8 * i + r))
  }

  function OctetOf(bits: seq<bool>, i: nat): byte {
    var b := EightBits(bits, i);
    128 * b[0] + 64 * b[1] + 32 * b[2] + 16 * b[3] + 8 * b[4] + 4 * b[5] + 2 * b[6] + b[7]
  }

  /** Bits packed into octets, the last of which is filled up with ones. */
  function Octets(bits: seq<bool>): (o: seq<byte>)
    ensures |o| == (|bits| + 7) / 8
  {
    seq((|bits| + 7) / 8, (i: nat) => OctetOf(bits, i))
  }

  /** One digit of a sum of powers. */
  lemma DigitAt(v: nat, p: nat, high: nat, b: nat, low: nat)
    requires p > 0 && v == (2 * high + b) * p + low && low < p && b <= 1
    ensures v / p % 2 == b
  {
    DivModUnique(v, p, 2 * high + b, low);
  }

  lemma OctetDigit(b: seq<nat>, v: nat, r: nat)
    requires |b| == 8 && r < 8 && forall i :: 0 <= i < 8 ==> b[i] <= 1
    requires v == 128 * b[0] + 64 * b[1] + 32 * b[2] + 16 * b[3] + 8 * b[4] + 4 * b[5] + 2 * b[6] + b[7]
    ensures v / Pow2(7 - r) % 2 == b[r]
  {
    Pow2Small();
    hide Pow2;
    match r
    case 0 => DigitAt(v, 128, 0, b[0], 64 * b[1] + 32 * b[2] + 16 * b[3] + 8 * b[4] + 4 * b[5] + 2 * b[6] + b[7]);
    case 1 => DigitAt(v, 64, b[0], b[1], 32 * b[2] + 16 * b[3] + 8 * b[4] + 4 * b[5] + 2 * b[6] + b[7]);
    case 2 => DigitAt(v, 32, 2 * b[0] + b[1], b[2], 16 * b[3] + 8 * b[4] + 4 * b[5] + 2 * b[6] + b[7]);
    case 3 => DigitAt(v, 16, 4 * b[0] + 2 * b[1] + b[2], b[3], 8 * b[4] + 4 * b[5] + 2 * b[6] + b[7]);
    case 4 => DigitAt(v, 8, 8 * b[0] + 4 * b[1] + 2 * b[2] + b[3], b[4], 4 * b[5] + 2 * b[6] + b[7]);
    case 5 => DigitAt(v, 4, 16 * b[0] + 8 * b[1] + 4 * b[2] + 2 * b[3] + b[4], b[5], 2 * b[6] + b[7]);
    case 6 => DigitAt(v, 2, 32 * b[0] + 16 * b[1] + 8 * b[2] + 4 * b[3] + 2 * b[4] + b[5], b[6], b[7]);
    case 7 => DigitAt(v, 1, 64 * b[0] + 32 * b[1] + 16 * b[2] + 8 * b[3] + 4 * b[4] + 2 * b[5] + b[6], b[7], 0);
  }

  lemma OctetBit(bits: seq<bool>, f: nat -> byte, i: nat, r: nat)
    requires f(i) == OctetOf(bits, i) && r < 8
    ensures Bit(f, 8 * i + r) == BitOf(bits, 8 * i + r)
  {
    assert (8 * i + r) / 8 == i && (8 * i + r) % 8 == r;
    hide Pow2, BitOf, EightBits;
    OctetDigit(EightBits(bits, i), f(i), r);
  }

  lemma OctetsRead(bits: seq<bool>, f: nat -> byte)
    requires forall i: nat :: i < |Octets(bits)| ==> f(i) == Octets(bits)[i]
    ensures Reads(f, 0, bits)
  {
    forall j: nat | j < |bits|
      ensures Bit(f, 0 + j) == 1 <==> bits[j]
    {
      var i, r := j / 8, j % 8;
      assert f(i) == Octets(bits)[i] == OctetOf(bits, i);
      hide OctetOf, Bit;
      OctetBit(bits, f, i, r);
    }
  }

  // ---- the bytes of a scan ----

  /** How many MCUs come before the next restart marker. */
  function FirstPart(n: nat, interval: nat): (m: nat)
    ensures m <= n && (n > 0 ==> m > 0)
  {
    if interval == 0 || n <= interval then n else interval
  }

  /** The bytes of a scan, if all of its segments can be coded. */
  datatype Bytes = NoBytes | Bytes(b: seq<byte>)

  function InFront(b: seq<byte>, rest: Bytes): Bytes {
    match rest
    case NoBytes => NoBytes
    case Bytes(r) => Bytes(b + r)
  }

  function SegmentBytes(c: Code): Bytes {
    match c
    case NoCode => NoBytes
    case Code(bits, _) => Bytes(Stuff(Octets(bits)))
  }

  /** The segments of a scan, with restart markers between them and a marker behind the last one. */
  ghost function ScanBytes(s: Scan, mcus: seq<seq<seq<int>>>, interval: nat, number: nat, end: seq<byte>): Bytes
    requires s.Ok() && number < 8
    decreases |mcus|
  {
    var m := FirstPart(|mcus|, interval);
    match SegmentBytes(Segment(s, mcus[..m]))
    case NoBytes => NoBytes
    case Bytes(b) =>
      InFront(b, if m == |mcus| then Bytes(end)
                 else InFront([0xFF, 0xD0 + number], ScanBytes(s, mcus[m..], interval, (number + 1) % 8, end)))
  }

  /** What comes behind the first segment. */
  ghost function Rest(s: Scan, mcus: seq<seq<seq<int>>>, interval: nat, number: nat, end: seq<byte>): Bytes
    requires s.Ok() && number < 8
  {
    var m := FirstPart(|mcus|, interval);
    if m == |mcus| then Bytes(end) else InFront([0xFF, 0xD0 + number], ScanBytes(s, mcus[m..], interval, (number + 1) % 8, end))
  }

  /** A marker ends the scan. */
  ghost predicate Ends(end: seq<byte>) {
    |end| >= 2 && end[0] == 0xFF && end[1] != 0
  }

  lemma BytesAre(s: Scan, mcus: seq<seq<seq<int>>>, interval: nat, number: nat, end: seq<byte>)
    requires s.Ok() && number < 8 && Ends(end) && ScanBytes(s, mcus, interval, number, end).Bytes?
    ensures var m := FirstPart(|mcus|, interval);
            var rest := Rest(s, mcus, interval, number, end);
            && Segment(s, mcus[..m]).Code? && rest.Bytes? && Ends(rest.b)
            && ScanBytes(s, mcus, interval, number, end).b == Stuff(Octets(Segment(s, mcus[..m]).bits)) + rest.b
  {
    hide Segment, Stuff, Octets, Scan.Ok;
  }

  /** The bits of the first segment are what the entropy decoder gets. */
  lemma SegmentReads(bits: seq<bool>, rest: seq<byte>, flag: nat)
    requires Ends(rest)
    ensures Reads(EntropyStream(Stuff(Octets(bits)) + rest, flag), 0, bits)
  {
    var o, f := Octets(bits), EntropyStream(Stuff(Octets(bits)) + rest, flag);
    hide Octets, Stuff, Octet, Reads;
    forall i: nat | i < |o|
      ensures f(i) == o[i]
    {
      StuffedSegment(o, rest, flag, i);
    }
    OctetsRead(bits, f);
  }

  // ---- decoding the bytes of a scan ----

  /** The input is what a scan of these MCUs is coded as. */
  ghost predicate IsScan(s: Scan, interval: nat, mcus: seq<seq<seq<int>>>, number: nat, end: seq<byte>, input: Source)
    requires s.Ok()
  {
    number < 8 && Ends(end) && input.flag <= 1 && ScanBytes(s, mcus, interval, number, end) == Bytes(input.bytes)
  }

  /** Decoding stands behind the first i MCUs of a segment. */
  ghost predicate Reached(s: Scan, mcus: seq<seq<seq<int>>>, i: nat, st: State)
    requires s.Ok()
  {
    i <= |mcus| && var c := Segment(s, mcus[..i]); c.Code? && st.pos == |c.bits| && st.preds == c.preds
  }

  /** The input is what a scan of these MCUs is coded as, and decoding stands behind the first i of
      them, which are in its first segment. */
  ghost predicate Standing(s: Scan, interval: nat, mcus: seq<seq<seq<int>>>, i: nat, number: nat, end: seq<byte>, p: Place, c: Countdown)
    requires s.Ok()
  {
    && IsScan(s, interval, mcus, number, end, p.input) && p.Ok()
    && i <= FirstPart(|mcus|, interval) && Reached(s, mcus, i, p.state)
    && (interval != 0 ==> c == Countdown(interval - i, number))
  }

  /** Decoding stands at the beginning of the scan. */
  lemma ScanStarts(s: Scan, interval: nat, mcus: seq<seq<seq<int>>>, end: seq<byte>, flag: nat)
    requires s.Ok() && Ends(end) && flag <= 1 && ScanBytes(s, mcus, interval, 0, end).Bytes?
    ensures var input := Source(ScanBytes(s, mcus, interval, 0, end).b, flag);
            Standing(s, interval, mcus, 0, 0, end, Anew(input, |s.dc|), Countdown(interval, 0))
  {
    hide ScanBytes, Scan.Ok;
    assert mcus[..0] == [];
  }

  /** What the entropy decoder gets are the bits of the first segment. */
  lemma FirstBits(s: Scan, interval: nat, mcus: seq<seq<seq<int>>>, number: nat, end: seq<byte>, input: Source)
    requires s.Ok() && IsScan(s, interval, mcus, number, end, input)
    ensures var c := Segment(s, mcus[..FirstPart(|mcus|, interval)]);
            c.Code? && Reads(EntropyStream(input.bytes, input.flag), 0, c.bits)
  {
    hide Segment, Scan.Ok, Octet, Stuff, Octets, Reads, ScanBytes, Rest, Ends;
    BytesAre(s, mcus, interval, number, end);
    var n := FirstPart(|mcus|, interval);
    SegmentReads(Segment(s, mcus[..n]).bits, Rest(s, mcus, interval, number, end).b, input.flag);
  }

  lemma McuReached(s: Scan, mcus: seq<seq<seq<int>>>, n: nat, i: nat, st: State) returns (decoded: seq<seq<int>>)
    requires s.Ok() && i < n <= |mcus| && Reached(s, mcus, i, st)
    requires Segment(s, mcus[..n]).Code? && Reads(st.f, 0, Segment(s, mcus[..n]).bits)
    ensures |st.preds| == |s.dc| && |mcus[i]| == |s.mcuOrg| && Recovered(s, 0, mcus[i], decoded)
    ensures McuFrom(s, 0, st).McuDone? && McuFrom(s, 0, st).blocks == decoded
    ensures Reached(s, mcus, i + 1, McuFrom(s, 0, st).state)
  {
    hide Segment, McuFrom, Recovered, Scan.Ok, Reads;
    decoded := McuOfSegment(s, mcus[..n], i, st.f);
    assert mcus[..n][..i] == mcus[..i] && mcus[..n][..i + 1] == mcus[..i + 1] && mcus[..n][i] == mcus[i];
  }

  lemma InSegment(s: Scan, interval: nat, mcus: seq<seq<seq<int>>>, i: nat, number: nat, end: seq<byte>, p: Place, c: Countdown)
    returns (decoded: seq<seq<int>>)
    requires s.Ok() && Standing(s, interval, mcus, i, number, end, p, c) && i < FirstPart(|mcus|, interval)
    ensures |p.state.preds| == |s.dc| && i < |mcus| && |mcus[i]| == |s.mcuOrg| && Recovered(s, 0, mcus[i], decoded)
    ensures McuFrom(s, 0, p.state).McuDone? && McuFrom(s, 0, p.state).blocks == decoded
    ensures Reached(s, mcus, i + 1, McuFrom(s, 0, p.state).state)
  {
    hide Segment, McuFrom, Recovered, Scan.Ok, Octet, Reads, Reached, IsScan;
    FirstBits(s, interval, mcus, number, end, p.input);
    decoded := McuReached(s, mcus, FirstPart(|mcus|, interval), i, p.state);
  }

  lemma LaterBytes(s: Scan, interval: nat, mcus: seq<seq<seq<int>>>, number: nat, end: seq<byte>)
    requires s.Ok() && number < 8 && Ends(end) && ScanBytes(s, mcus, interval, number, end).Bytes?
    requires FirstPart(|mcus|, interval) < |mcus|
    ensures var n := FirstPart(|mcus|, interval);
            var c, later := Segment(s, mcus[..n]), ScanBytes(s, mcus[n..], interval, (number + 1) % 8, end);
            && c.Code? && later.Bytes?
            && ScanBytes(s, mcus, interval, number, end).b == Stuff(Octets(c.bits)) + [0xFF, 0xD0 + number] + later.b
  {
    hide Segment, Stuff, Octets, Scan.Ok;
  }

  /** The place behind the restart marker that ends the first segment. */
  ghost function BehindMarker(s: Scan, interval: nat, mcus: seq<seq<seq<int>>>, number: nat, end: seq<byte>, flag: nat): Place
    requires s.Ok() && number < 8
  {
    match ScanBytes(s, mcus[FirstPart(|mcus|, interval)..], interval, (number + 1) % 8, end)
    case NoBytes => Anew(Source([], flag), |s.dc|)
    case Bytes(b) => Anew(Source(b, flag), |s.dc|)
  }

  /** At the end of a segment a restart is due, and there is one place where decoding can go on: the
      beginning of the next segment. */
  lemma AtRestart(s: Scan, interval: nat, mcus: seq<seq<seq<int>>>, number: nat, end: seq<byte>, p: Place, c: Countdown, start: Place)
    requires s.Ok() && FirstPart(|mcus|, interval) < |mcus|
    requires Standing(s, interval, mcus, FirstPart(|mcus|, interval), number, end, p, c)
    ensures Due(interval, c) && c.number == number
    ensures var next := BehindMarker(s, interval, mcus, number, end, p.input.flag);
            && (Restarted(p, number, start) <==> start == next)
            && Standing(s, interval, mcus[FirstPart(|mcus|, interval)..], 0, (number + 1) % 8, end, next, Countdown(interval, (number + 1) % 8))
  {
    hide Segment, Stuff, Octets, Scan.Ok, ScanBytes, Restarted, Octet, Ends, AfterOctets;
    LaterBytes(s, interval, mcus, number, end);
    var n := FirstPart(|mcus|, interval);
    var bits, later := Segment(s, mcus[..n]).bits, ScanBytes(s, mcus[n..], interval, (number + 1) % 8, end).b;
    SegmentPreds(s, mcus[..n]);
    assert p.taken >= |Octets(bits)| by {
      OctetCount(bits);
    }
    RestartBehindMarker(p, Octets(bits), later, number, start);
    NoneReached(s, mcus[n..], Anew(Source(later, p.input.flag), |s.dc|).state);
  }

  lemma OctetCount(bits: seq<bool>)
    ensures 8 * |Octets(bits)| <= |bits| + 7
  {
  }

  lemma NoneReached(s: Scan, mcus: seq<seq<seq<int>>>, st: State)
    requires s.Ok() && st.pos == 0 && st.preds == seq(|s.dc|, _ => 0)
    ensures Reached(s, mcus, 0, st)
  {
    assert mcus[..0] == [];
  }

  /** One MCU of a row: it is the next one, and decoding stands behind it. */
  lemma OneDecodes(s: Scan, interval: nat, mcus: seq<seq<seq<int>>>, i: nat, number: nat, end: seq<byte>, p: Place, c: Countdown, run: McuRun)
    returns (mcus': seq<seq<seq<int>>>, i': nat, number': nat)
    requires s.Ok() && Standing(s, interval, mcus, i, number, end, p, c) && i < |mcus|
    requires Follows(s, interval, p, c, run)
    ensures |mcus[i]| == |s.mcuOrg| && Recovered(s, 0, mcus[i], run.blocks)
    ensures i' <= |mcus'| && mcus'[i'..] == mcus[i + 1..]
    ensures Standing(s, interval, mcus', i', number', end, run.end, CountdownAt(interval, c, 1))
  {
    hide Segment, McuFrom, Recovered, Scan.Ok, Octet, Reached, IsScan, Restarted, BehindMarker, AfterOctets;
    var n := FirstPart(|mcus|, interval);
    assert CountdownAt(interval, c, 0) == c;
    if i < n {
      var _ := InSegment(s, interval, mcus, i, number, end, p, c);
      mcus', i', number' := mcus, i + 1, number;
    } else {
      AtRestart(s, interval, mcus, number, end, p, c, run.start);
      mcus', i', number' := mcus[n..], 1, (number + 1) % 8;
      var _ := InSegment(s, interval, mcus', 0, number', end, run.start, Countdown(interval, number'));
    }
  }

  lemma GoesOn(s: Scan, interval: nat, p: Place, c: Countdown, start: Place)
    requires s.Ok() && Starts(interval, p, c, start) && |start.state.preds| == |s.dc| && McuFrom(s, 0, start.state).McuDone?
    ensures !Stuck(s, interval, p, c)
  {
    hide McuFrom, Scan.Ok, Starts;
  }

  /** As long as there are MCUs left, decoding does not get stuck. */
  lemma NeverStuck(s: Scan, interval: nat, mcus: seq<seq<seq<int>>>, i: nat, number: nat, end: seq<byte>, p: Place, c: Countdown)
    requires s.Ok() && Standing(s, interval, mcus, i, number, end, p, c) && i < |mcus|
    ensures !Stuck(s, interval, p, c)
  {
    hide Segment, McuFrom, Recovered, Scan.Ok, Octet, Reached, IsScan, Restarted, BehindMarker, AfterOctets, Stuck;
    var n := FirstPart(|mcus|, interval);
    if i < n {
      var _ := InSegment(s, interval, mcus, i, number, end, p, c);
      assert Starts(interval, p, c, p);
      GoesOn(s, interval, p, c, p);
    } else {
      NumberFits(s, interval, mcus, number, end, p.input);
      var next := BehindMarker(s, interval, mcus, number, end, p.input.flag);
      AtRestart(s, interval, mcus, number, end, p, c, next);
      var _ := InSegment(s, interval, mcus[n..], 0, (number + 1) % 8, end, next, Countdown(interval, (number + 1) % 8));
      assert Starts(interval, p, c, next);
      GoesOn(s, interval, p, c, next);
    }
  }

  lemma NumberFits(s: Scan, interval: nat, mcus: seq<seq<seq<int>>>, number: nat, end: seq<byte>, input: Source)
    requires s.Ok() && IsScan(s, interval, mcus, number, end, input)
    ensures number < 8
  {
  }

  lemma ChainedSplit(s: Scan, interval: nat, runs: seq<McuRun>, p: Place, c: Countdown)
    requires s.Ok() && Chained(s, interval, runs, p, c) && runs != []
    ensures var m := |runs| - 1;
            && Chained(s, interval, runs[..m], p, c)
            && Follows(s, interval, Last(runs[..m], p), CountdownAt(interval, c, m), runs[m]) && Last(runs, p) == runs[m].end
  {
    hide Follows, CountdownAt;
  }

  lemma {:induction false} CountdownAdds(interval: nat, c: Countdown, m: nat)
    ensures CountdownAt(interval, CountdownAt(interval, c, m), 1) == CountdownAt(interval, c, m + 1)
  {
    var b := CountdownAt(interval, c, m);
    assert CountdownAt(interval, b, 0) == b;
  }

  /** The MCUs of a row are those from MCU i on. */
  ghost predicate RowRecovered(s: Scan, mcus: seq<seq<seq<int>>>, i: nat, runs: seq<McuRun>)
    requires s.Ok() && i + |runs| <= |mcus|
  {
    forall m: nat :: m < |runs| ==> |mcus[i + m]| == |s.mcuOrg| && Recovered(s, 0, mcus[i + m], runs[m].blocks)
  }

  /** A row of MCUs, decoded from the bytes of a scan: they are the next MCUs of the scan, block by
      block, restarts or not, and decoding stands behind them. */
  lemma {:induction false} RowDecodes(s: Scan, interval: nat, mcus: seq<seq<seq<int>>>, i: nat, number: nat, end: seq<byte>,
                                      p: Place, c: Countdown, runs: seq<McuRun>)
    returns (mcus': seq<seq<seq<int>>>, i': nat, number': nat)
    requires s.Ok() && Standing(s, interval, mcus, i, number, end, p, c) && i + |runs| <= |mcus|
    requires Chained(s, interval, runs, p, c)
    ensures RowRecovered(s, mcus, i, runs)
    ensures i' <= |mcus'| && mcus'[i'..] == mcus[i + |runs|..]
    ensures Standing(s, interval, mcus', i', number', end, Last(runs, p), CountdownAt(interval, c, |runs|))
    decreases |runs|
  {
    hide Standing, Chained, Follows, Recovered, Scan.Ok, CountdownAt;
    if runs == [] {
      NoneChained(s, interval, p, c);
      mcus', i', number' := mcus, i, number;
    } else {
      var m := |runs| - 1;
      ChainedSplit(s, interval, runs, p, c);
      mcus', i', number' := RowDecodes(s, interval, mcus, i, number, end, p, c, runs[..m]);
      assert mcus'[i'..][0] == mcus[i + m..][0];
      var before := mcus'[i'..];
      CountdownAdds(interval, c, m);
      mcus', i', number' := OneDecodes(s, interval, mcus', i', number', end, Last(runs[..m], p), CountdownAt(interval, c, m), runs[m]);
      assert mcus'[i'..] == before[1..] == mcus[i + m..][1..];
    }
  }

  // ---- down to the samples ----

  /** Block b of an MCU: these are the samples of the inverse DCT of its coefficients times their steps. */
  ghost predicate Pictures(s: Scan, blocks: seq<seq<int>>, b: nat, samples: seq<int>)
    requires s.Ok() && b < |s.mcuOrg|
  {
    && |blocks| == |s.mcuOrg| && |blocks[b]| == |samples| == 64
    && AllNear(InPlace(Scaled(blocks[b], s.quant[s.mcuOrg[b]])), samples)
  }

  /** Block b of MCU m of a row is found in its place. */
  ghost predicate SampledAt(s: Scan, mcus: seq<seq<seq<int>>>, i: nat, samples: seq<int>, m: nat, b: nat)
    requires s.Ok() && b < |s.mcuOrg| && i + m < |mcus|
  {
    var at := 64 * (|s.mcuOrg| * m + b);
    0 <= at <= |samples| - 64 && Pictures(s, mcus[i + m], b, samples[at..at + 64])
  }

  ghost predicate AllSampled(s: Scan, mcus: seq<seq<seq<int>>>, i: nat, n: nat, samples: seq<int>)
    requires s.Ok() && i + n <= |mcus|
  {
    forall m: nat, b: nat :: m < n && b < |s.mcuOrg| ==> SampledAt(s, mcus, i, samples, m, b)
  }

  lemma RecoveredPictures(s: Scan, blocks: seq<seq<int>>, decoded: seq<seq<int>>, b: nat)
    requires s.Ok() && b < |s.mcuOrg| == |blocks| && Recovered(s, 0, blocks, decoded)
    ensures |decoded| == |s.mcuOrg| && |decoded[b]| == 64 && Pictures(s, blocks, b, Samples(decoded[b]))
  {
    assert RecoveredAt(s, 0 + b, blocks, decoded[b]);
    hide Samples, AllNear, Scaled, InPlace, Scan.Ok;
    SamplesNear(decoded[b]);
  }

  lemma RowSampled(s: Scan, mcus: seq<seq<seq<int>>>, i: nat, runs: seq<McuRun>, samples: seq<int>)
    requires s.Ok() && i + |runs| <= |mcus|
    requires forall r :: 0 <= r < |runs| ==> AllBlocks(runs[r].blocks)
    requires RowRecovered(s, mcus, i, runs)
    requires samples == RowSamples(runs)
    ensures AllSampled(s, mcus, i, |runs|, samples)
  {
    hide Samples, RowSamples, Scan.Ok, AllBlocks, Recovered, Pictures;
    forall r: nat | r < |runs|
      ensures |runs[r].blocks| == |s.mcuOrg|
    {
      RecoveredCount(s, mcus[i + r], runs[r].blocks);
    }
    forall m: nat, b: nat | m < |runs| && b < |s.mcuOrg|
      ensures SampledAt(s, mcus, i, samples, m, b)
    {
      RowSampleAt(runs, |s.mcuOrg|, m, b);
      RecoveredPictures(s, mcus[i + m], runs[m].blocks, b);
    }
  }

  lemma RecoveredCount(s: Scan, blocks: seq<seq<int>>, decoded: seq<seq<int>>)
    requires s.Ok() && |blocks| == |s.mcuOrg| && Recovered(s, 0, blocks, decoded)
    ensures |decoded| == |s.mcuOrg|
  {
    hide RecoveredAt, Scan.Ok;
  }

  lemma AllLeft(mcus: seq<seq<seq<int>>>, i: nat, n: nat, mcus': seq<seq<seq<int>>>, i': nat)
    requires i + n < |mcus| && i' <= |mcus'| && mcus'[i'..] == mcus[i + n..]
    ensures i' < |mcus'|
  {
  }

  /** decode_next_row on the bytes of a scan: it does not fail, and each block of the row buffer is the
      inverse DCT of the coefficients that were coded, times their steps. */
  method DecodeCoded(d: ScanDecoder, ghost mcus: seq<seq<seq<int>>>, ghost i: nat, ghost number: nat, ghost end: seq<byte>)
    returns (ok: bool, ghost mcus': seq<seq<seq<int>>>, ghost i': nat, ghost number': nat)
    requires d.Valid() && i + d.mcusPerRow <= |mcus|
    requires Standing(d.s, d.restartInterval, mcus, i, number, end, d.Here(), Countdown(d.restartsLeft, d.nextRestartNum))
    modifies d, d.reader, d.coefficients, d.maxZag, d.lastDc, d.samples
    ensures ok && d.Valid() && i' <= |mcus'| && mcus'[i'..] == mcus[i + d.mcusPerRow..]
    ensures Standing(d.s, d.restartInterval, mcus', i', number', end, d.Here(), Countdown(d.restartsLeft, d.nextRestartNum))
    ensures AllSampled(d.s, mcus, i, d.mcusPerRow, d.samples[..])
  {
    hide McuFrom, ScanDecoder.TablesOk, ScanDecoder.BlocksBounded, Entropy, Buffer, Chained, RowSamples, AllBlocks, Follows, Stuck;
    hide CountdownAt, Last, AfterOctets, Octet, Standing, Recovered, RowRecovered, AllSampled;
    ghost var p, c := d.Here(), Countdown(d.restartsLeft, d.nextRestartNum);
    ghost var runs;
    ok, runs := d.DecodeNextRow();
    mcus', i', number' := RowDecodes(d.s, d.restartInterval, mcus, i, number, end, p, c, runs);
    if !ok {
      AllLeft(mcus, i, |runs|, mcus', i');
      NeverStuck(d.s, d.restartInterval, mcus', i', number', end, Last(runs, p), CountdownAt(d.restartInterval, c, |runs|));
      assert false;
    }
    RowSampled(d.s, mcus, i, runs, d.samples[..]);
  }
}
