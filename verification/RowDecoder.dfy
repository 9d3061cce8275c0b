/** Decoding a row of MCUs of a baseline scan down to samples: decode_next_row, transform_mcu and
    process_restart of jpeg_decoder. */
module RowDecoder {
  import opened Arith
  import opened BitStream
  import opened BitReaders
  import opened HuffmanTrie
  import opened HuffmanCover
  import opened HuffmanTables
  import opened HuffmanDecode
  import opened IdctTables
  import opened Idcts
  import opened BlockDecoder

  /** Where decoding stands between two blocks: the stream, the position in it, and the DC
      prediction of each component. */
  datatype State = State(f: nat -> byte, pos: nat, preds: seq<int>)

  /** What the blocks of one MCU decode to. */
  datatype McuOutcome = McuFailed | McuDone(blocks: seq<seq<int>>, state: State)

  /** The tables a scan decodes with: the component of each block of an MCU, and for each
      component its Huffman codes and its quantisation table. */
  datatype Scan = Scan(mcuOrg: seq<nat>, dc: seq<Spec>, ac: seq<Spec>, quant: seq<seq<int>>) {
    ghost predicate Ok() {
      && |dc| == |ac| == |quant| <= 4
      && (forall b :: 0 <= b < |mcuOrg| ==> mcuOrg[b] < |dc|)
      && forall c :: 0 <= c < |dc| ==> dc[c].Ok() && ac[c].Ok() && |quant[c]| == 64
    }
  }

  /** Block b of an MCU, by the reference of BlockDecoder. */
  ghost function BlockOf(s: Scan, b: nat, st: State): Outcome
    requires s.Ok() && b < |s.mcuOrg| && |st.preds| == |s.dc|
  {
    var c := s.mcuOrg[b];
    BlockAt(s.dc[c], s.ac[c], s.quant[c], st.f, st.pos, st.preds[c])
  }

  ghost function AfterBlock(s: Scan, b: nat, st: State): State
    requires s.Ok() && b < |s.mcuOrg| && |st.preds| == |s.dc|
    requires BlockOf(s, b, st).Decoded?
  {
    var c := s.mcuOrg[b];
    State(st.f, BlockOf(s, b, st).block.next, st.preds[c := DcAt(s.dc[c], st.f, st.pos, st.preds[c])])
  }

  /** The blocks of an MCU from block b on, in scan order. */
  ghost function McuFrom(s: Scan, b: nat, st: State): McuOutcome
    requires s.Ok() && b <= |s.mcuOrg| && |st.preds| == |s.dc|
    decreases |s.mcuOrg| - b
  {
    if b == |s.mcuOrg| then McuDone([], st)
    else
      match BlockOf(s, b, st)
      case Failed => McuFailed
      case Decoded(block) =>
        match McuFrom(s, b + 1, AfterBlock(s, b, st))
        case McuFailed => McuFailed
        case McuDone(blocks, end) =>
          if |block.zz| == 64 then McuDone([InPlace(block.zz)] + blocks, end) else McuFailed
  }

  lemma {:induction false} McuHasAllBlocks(s: Scan, b: nat, st: State)
    requires s.Ok() && b <= |s.mcuOrg| && |st.preds| == |s.dc|
    ensures var o := McuFrom(s, b, st);
            o.McuDone? ==> |o.blocks| == |s.mcuOrg| - b && |o.state.preds| == |s.dc|
    ensures var o := McuFrom(s, b, st);
            o.McuDone? ==> forall i :: 0 <= i < |o.blocks| ==> |o.blocks[i]| == 64
    decreases |s.mcuOrg| - b
  {
    hide BlockAt, DcAt;
    if b < |s.mcuOrg| && BlockOf(s, b, st).Decoded? {
      McuHasAllBlocks(s, b + 1, AfterBlock(s, b, st));
    }
  }

  /** Blocks that have been decoded already, in front of the others of their MCU. */
  function Prepend(blocks: seq<seq<int>>, o: McuOutcome): McuOutcome {
    match o
    case McuFailed => McuFailed
    case McuDone(rest, end) => McuDone(blocks + rest, end)
  }

  lemma McuStep(s: Scan, b: nat, st: State, blocks: seq<seq<int>>)
    requires s.Ok() && b < |s.mcuOrg| && |st.preds| == |s.dc|
    ensures BlockOf(s, b, st).Failed? ==> Prepend(blocks, McuFrom(s, b, st)) == McuFailed
    ensures var o := BlockOf(s, b, st);
            o.Decoded? && |o.block.zz| == 64 ==>
              Prepend(blocks, McuFrom(s, b, st)) ==
              Prepend(blocks + [InPlace(o.block.zz)], McuFrom(s, b + 1, AfterBlock(s, b, st)))
  {
    hide BlockAt, DcAt, InPlace;
    var o := BlockOf(s, b, st);
    if o.Decoded? && |o.block.zz| == 64 {
      var rest := McuFrom(s, b + 1, AfterBlock(s, b, st));
      if rest.McuDone? {
        assert blocks + ([InPlace(o.block.zz)] + rest.blocks) == blocks + [InPlace(o.block.zz)] + rest.blocks;
      }
    }
  }

  lemma McuEnds(s: Scan, st: State)
    requires s.Ok() && |st.preds| == |s.dc|
    ensures McuFrom(s, |s.mcuOrg|, st) == McuDone([], st)
    ensures Prepend([], McuFrom(s, 0, st)) == McuFrom(s, 0, st)
  {
    hide BlockAt, DcAt, InPlace, BlockOf;
    var o := McuFrom(s, 0, st);
    if o.McuDone? {
      assert [] + o.blocks == o.blocks;
    }
  }

  /** The samples of the blocks of an MCU, and of a row of MCUs, one after the other. */
  ghost function McuSamples(blocks: seq<seq<int>>): seq<int>
    requires AllBlocks(blocks)
  {
    if blocks == [] then [] else McuSamples(blocks[..|blocks| - 1]) + Samples(blocks[|blocks| - 1])
  }

  /** Byte k of the stream ends a restart marker with number n, the first marker there is, and
      it is within the distance that is searched. */
  ghost predicate RestartAt(g: nat -> byte, k: nat, n: int) {
    && 1 <= k <= 1536 && g(k) == 0xD0 + n
    && exists a: nat :: a < k && Fill(g, a, k)
  }

  /** The first FF is byte a, and there are only FFs from there up to byte k. */
  ghost predicate Fill(g: nat -> byte, a: nat, k: nat) {
    (forall i: nat :: i < a ==> g(i) != 0xFF) && forall i: nat :: a <= i < k ==> g(i) == 0xFF
  }

  lemma NoFill(g: nat -> byte, n: int)
    requires forall i: nat :: i < 1536 ==> g(i) != 0xFF
    ensures forall k: nat :: !RestartAt(g, k, n)
  {
    forall k: nat
      ensures !RestartAt(g, k, n)
    {
      if exists a: nat :: a < k && Fill(g, a, k) {
        var a: nat :| a < k && Fill(g, a, k);
        assert a >= 1536 || g(a) != 0xFF;
      }
    }
  }

  lemma OneRestart(g: nat -> byte, a: nat, k: nat, n: int)
    requires a < k && Fill(g, a, k) && 0 <= n < 8
    ensures forall j: nat :: RestartAt(g, j, n) ==> k <= j <= 1536 && (g(k) != 0xFF ==> k == j)
    ensures k <= 1536 && g(k) == 0xD0 + n ==> RestartAt(g, k, n)
    ensures RestartAt(g, k, n) ==> g(k) == 0xD0 + n
  {
    forall j: nat | RestartAt(g, j, n)
      ensures k <= j <= 1536 && (g(k) != 0xFF ==> k == j)
    {
      var a': nat :| a' < j && Fill(g, a', j);
      assert g(a) == 0xFF && g(a') == 0xFF;
    }
  }

  /** There is at most one. */
  lemma RestartUnique(g: nat -> byte, j: nat, k: nat, n: int)
    requires RestartAt(g, j, n) && RestartAt(g, k, n) && 0 <= n < 8
    ensures j == k
  {
    var a: nat :| a < k && Fill(g, a, k);
    OneRestart(g, a, k, n);
  }

  /** The first search loop of process_restart: it reads up to the first FF. */
  method SkipToFF(r: BitReader, ghost g: nat -> byte) returns (i: int, ghost a: nat)
    requires r.InputOk() && Raw(g, 0, r.unread, r.padFlag)
    modifies r`unread, r`inBufLeft, r`padFlag
    ensures r.InputOk() && 0 <= i <= 1536 && a == 1536 - i
    ensures forall j: nat :: j < a ==> g(j) != 0xFF
    ensures i > 0 ==> g(a) == 0xFF && Raw(g, a + 1, r.unread, r.padFlag) && r.Rest() == AfterBytes(old(r.Rest()), a + 1)
  {
    hide RawByte, Raw, AfterByte;
    ghost var start := r.Rest();
    a := 0;
    i := 1536;
    while i > 0
      invariant 0 <= i <= 1536 && a == 1536 - i && r.InputOk()
      invariant Raw(g, a, r.unread, r.padFlag) && r.Rest() == AfterBytes(start, a)
      invariant forall j: nat :: j < a ==> g(j) != 0xFF
    {
      RawStep(g, a, r.unread, r.padFlag);
      var c, padding := r.GetChar();
      if c == 0xFF {
        return;
      }
      a := a + 1;
      i := i - 1;
    }
  }

  /** The second search loop: it reads up to the first byte that is not FF. */
  method SkipFFs(r: BitReader, i0: int, ghost g: nat -> byte, ghost a: nat, ghost start: Source) returns (i: int, c: byte, ghost k: nat)
    requires r.InputOk() && 0 < i0 && Raw(g, a + 1, r.unread, r.padFlag) && g(a) == 0xFF && r.Rest() == AfterBytes(start, a + 1)
    modifies r`unread, r`inBufLeft, r`padFlag
    ensures r.InputOk() && 0 <= i <= i0 && k == a + 1 + (i0 - i)
    ensures forall j: nat :: a <= j < k ==> g(j) == 0xFF
    ensures i > 0 ==> c == g(k) && c != 0xFF && r.Rest() == AfterBytes(start, k + 1)
  {
    hide RawByte, Raw, AfterByte;
    k := a + 1;
    i := i0;
    c := 0;
    while i > 0
      invariant 0 <= i <= i0 && k == a + 1 + (i0 - i) && r.InputOk()
      invariant Raw(g, k, r.unread, r.padFlag) && r.Rest() == AfterBytes(start, k)
      invariant forall j: nat :: a <= j < k ==> g(j) == 0xFF
    {
      RawStep(g, k, r.unread, r.padFlag);
      var padding;
      c, padding := r.GetChar();
      if c != 0xFF {
        return;
      }
      k := k + 1;
      i := i - 1;
    }
  }

  /** The search of process_restart. */
  method FindRestart(r: BitReader, number: int) returns (ok: bool, ghost k: nat)
    requires r.InputOk() && 0 <= number < 8
    modifies r`unread, r`inBufLeft, r`padFlag
    ensures r.InputOk()
    ensures var g := RawStream(old(r.unread), old(r.padFlag));
            && (ok <==> exists k: nat :: RestartAt(g, k, number))
            && (ok ==> RestartAt(g, k, number) && r.Rest() == AfterBytes(old(r.Rest()), k + 1))
  {
    hide RawByte, Raw, RestartAt, AfterBytes;
    ghost var g, start := RawStream(r.unread, r.padFlag), r.Rest();
    RawItself(r.unread, r.padFlag);
    ghost var a;
    var i, c;
    i, a := SkipToFF(r, g);
    if i == 0 {
      NoFill(g, number);
      return false, a;
    }
    i, c, k := SkipFFs(r, i, g, a, start);
    OneRestart(g, a, k, number);
    if i == 0 {
      return false, k;
    }
    ok := c == number + 0xD0;
  }

  lemma RawItself(b: seq<byte>, flag: nat)
    ensures Raw(RawStream(b, flag), 0, b, flag)
  {
    hide RawByte;
  }

  /** Where decoding stands in the input: the bytes that the segment began with, and how many
      octets the bit buffer has taken in. */
  datatype Place = Place(input: Source, taken: nat, state: State) {
    /** The buffer runs ahead by sixteen to thirty-two bits. */
    ghost predicate Ok() {
      && state.f == EntropyStream(input.bytes, input.flag)
      && state.pos + 16 <= 8 * taken <= state.pos + 32 && taken % 2 == 0
    }

    /** The input that has not been taken in. */
    function Ahead(): Source {
      AfterOctets(input, taken)
    }
  }

  /** What happened at one MCU of a row. */
  datatype McuRun = McuRun(start: Place, blocks: seq<seq<int>>, end: Place)

  /** The countdown to the next restart, and its number. */
  datatype Countdown = Countdown(left: int, number: int)

  ghost predicate Due(interval: nat, c: Countdown) {
    interval != 0 && c.left == 0
  }

  /** The countdown before MCU m of a row. */
  ghost function CountdownAt(interval: nat, c: Countdown, m: nat): Countdown {
    if m == 0 then c
    else
      var b := CountdownAt(interval, c, m - 1);
      if Due(interval, b) then Countdown(interval - 1, (b.number + 1) % 8) else Countdown(b.left - 1, b.number)
  }

  /** After a restart, predictions are zero, and the data are exactly what comes behind the restart
      marker with the number that is expected, which is searched in what follows the octets that the
      bit buffer has taken in. */
  ghost predicate Restarted(prev: Place, number: int, p: Place) {
    var ahead := prev.Ahead();
    exists k: nat ::
      && RestartAt(RawStream(ahead.bytes, ahead.flag), k, number)
      && p == Anew(AfterBytes(ahead, k + 1), |prev.state.preds|)
  }

  /** The beginning of a segment. */
  ghost function Anew(input: Source, comps: nat): Place {
    Place(input, 4, State(EntropyStream(input.bytes, input.flag), 0, seq(comps, _ => 0)))
  }

  /** So a restart leaves no choice. */
  lemma RestartedUnique(prev: Place, number: int, p: Place, p': Place)
    requires Restarted(prev, number, p) && Restarted(prev, number, p') && 0 <= number < 8
    ensures p == p'
  {
    hide RestartAt, AfterBytes;
    var g := RawStream(prev.Ahead().bytes, prev.Ahead().flag);
    var k: nat :| RestartAt(g, k, number) && p == Anew(AfterBytes(prev.Ahead(), k + 1), |prev.state.preds|);
    var k': nat :| RestartAt(g, k', number) && p' == Anew(AfterBytes(prev.Ahead(), k' + 1), |prev.state.preds|);
    RestartUnique(g, k, k', number);
  }

  /** A segment that ends in its restart marker: whatever the buffer has taken in beyond the end of
      the segment, decoding goes on with what comes behind the marker. */
  lemma RestartBehindMarker(prev: Place, octets: seq<byte>, rest: seq<byte>, number: int, p: Place)
    requires 0 <= number < 8 && prev.input == Source(Stuff(octets) + [0xFF, 0xD0 + number] + rest, prev.input.flag)
    requires prev.input.flag <= 1 && prev.taken >= |octets|
    ensures Restarted(prev, number, p) <==> p == Anew(Source(rest, prev.input.flag), |prev.state.preds|)
  {
    var flag, marker := prev.input.flag, [0xFF, 0xD0 + number] + rest;
    assert prev.input.bytes == Stuff(octets) + marker;
    StuffedRest(octets, marker, flag, prev.taken);
    assert (if prev.taken <= |octets| then octets[prev.taken..] else []) == [];
    assert [] + marker == marker;
    var g := RawStream(marker, flag);
    assert prev.Ahead() == Source(marker, flag);
    assert g(0) == 0xFF && g(1) == 0xD0 + number && Fill(g, 0, 1);
    assert RestartAt(g, 1, number);
    BytesLeft(Source(marker, flag), 2);
    assert marker[2..] == rest;
    hide RestartAt, AfterBytes;
    assert Restarted(prev, number, Anew(Source(rest, flag), |prev.state.preds|)) by {
      assert RestartAt(g, 1, number);
    }
    if Restarted(prev, number, p) {
      RestartedUnique(prev, number, p, Anew(Source(rest, flag), |prev.state.preds|));
    }
  }

  /** The next MCU starts where the one before ended, unless a restart is due. */
  ghost predicate Starts(interval: nat, prev: Place, c: Countdown, start: Place) {
    if Due(interval, c) then Restarted(prev, c.number, start) else start == prev
  }

  /** The MCUs of a row follow each other, from place p on. */
  ghost predicate Chained(s: Scan, interval: nat, runs: seq<McuRun>, p: Place, c: Countdown)
    requires s.Ok()
  {
    if runs == [] then true
    else
      var m := |runs| - 1;
      Chained(s, interval, runs[..m], p, c) && Follows(s, interval, Last(runs[..m], p), CountdownAt(interval, c, m), runs[m])
  }

  ghost predicate Follows(s: Scan, interval: nat, prev: Place, c: Countdown, run: McuRun)
    requires s.Ok()
  {
    && Starts(interval, prev, c, run.start) && |run.start.state.preds| == |s.dc|
    && McuFrom(s, 0, run.start.state) == McuDone(run.blocks, run.end.state)
    && run.end.input == run.start.input && run.end.Ok()
  }

  /** There is no next MCU: no restart marker where one is due, or invalid data. */
  ghost predicate Stuck(s: Scan, interval: nat, prev: Place, c: Countdown)
    requires s.Ok()
  {
    forall start :: Starts(interval, prev, c, start) ==> |start.state.preds| == |s.dc| && McuFrom(s, 0, start.state) == McuFailed
  }

  /** The place after some MCUs. */
  ghost function Last(runs: seq<McuRun>, p: Place): Place {
    if runs == [] then p else runs[|runs| - 1].end
  }

  ghost function RowSamples(runs: seq<McuRun>): seq<int>
    requires forall m :: 0 <= m < |runs| ==> AllBlocks(runs[m].blocks)
  {
    if runs == [] then [] else RowSamples(runs[..|runs| - 1]) + McuSamples(runs[|runs| - 1].blocks)
  }

  lemma {:induction false} McuSampleAt(blocks: seq<seq<int>>, b: nat)
    requires AllBlocks(blocks) && b < |blocks|
    ensures |McuSamples(blocks)| == 64 * |blocks|
    ensures McuSamples(blocks)[64 * b..64 * b + 64] == Samples(blocks[b])
    decreases |blocks|
  {
    hide Samples;
    var n := |blocks| - 1;
    var init := blocks[..n];
    if n == 0 {
      assert init == [] && McuSamples(init) == [];
      assert McuSamples(blocks) == Samples(blocks[0]);
    } else {
      McuSampleAt(init, if b < n then b else 0);
      var s, last := McuSamples(init), Samples(blocks[n]);
      assert McuSamples(blocks) == s + last;
      if b < n {
        assert (s + last)[64 * b..64 * b + 64] == s[64 * b..64 * b + 64];
      } else {
        assert (s + last)[64 * n..64 * n + 64] == last;
      }
    }
  }

  /** Where the samples of block b of MCU m are in a row. */
  lemma {:induction false} RowSampleAt(runs: seq<McuRun>, nb: nat, m: nat, b: nat)
    requires forall r :: 0 <= r < |runs| ==> AllBlocks(runs[r].blocks) && |runs[r].blocks| == nb
    requires m < |runs| && b < nb
    ensures |RowSamples(runs)| == 64 * (nb * |runs|) && 0 <= 64 * (nb * m + b) <= |RowSamples(runs)| - 64
    ensures RowSamples(runs)[64 * (nb * m + b)..64 * (nb * m + b) + 64] == Samples(runs[m].blocks[b])
    decreases |runs|
  {
    hide Samples, McuSamples;
    var n := |runs| - 1;
    var init := runs[..n];
    McuSampleAt(runs[n].blocks, if m == n then b else 0);
    var last := McuSamples(runs[n].blocks);
    if n == 0 {
      assert init == [] && RowSamples(init) == [];
      assert RowSamples(runs) == last;
    } else {
      RowSampleAt(init, nb, if m < n then m else 0, b);
      var s := RowSamples(init);
      assert RowSamples(runs) == s + last;
      RowFits(nb, n, n + 1);
      if m < n {
        RowFits(nb, m, n);
        var at := 64 * (nb * m + b);
        assert (s + last)[at..at + 64] == s[at..at + 64];
      } else {
        assert (s + last)[|s| + 64 * b..|s| + 64 * b + 64] == last[64 * b..64 * b + 64];
      }
    }
  }

  ghost predicate AllBlocks(blocks: seq<seq<int>>) {
    forall i :: 0 <= i < |blocks| ==> |blocks[i]| == 64
  }

  class ScanDecoder {
    const s: Scan
    const reader: BitReader
    const dcTables: seq<HuffTables>
    const acTables: seq<HuffTables>
    ghost const tables: set<object>    // the Huffman tables and their arrays
    const mcusPerRow: nat
    const restartInterval: nat
    const coefficients: array<int>    // one MCU, 64 for each block
    const maxZag: array<int>          // for each block, a bound of its non-zero coefficients
    const lastDc: array<int>          // for each component
    const samples: array<int>         // a whole row

    var restartsLeft: int
    var nextRestartNum: int

    ghost predicate Shapes() {
      && s.Ok() && |dcTables| == |acTables| == |s.dc|
      && coefficients.Length == 64 * |s.mcuOrg| && maxZag.Length == |s.mcuOrg| && lastDc.Length == |s.dc|
      && samples.Length == 64 * (|s.mcuOrg| * mcusPerRow)
      && coefficients != maxZag && coefficients != lastDc && coefficients != samples
      && maxZag != lastDc && maxZag != samples && lastDc != samples
      && coefficients !in tables && maxZag !in tables && lastDc !in tables && samples !in tables && reader !in tables && this !in tables
      && forall c :: 0 <= c < |s.dc| ==>
           && dcTables[c] in tables && dcTables[c].Repr() <= tables
           && acTables[c] in tables && acTables[c].Repr() <= tables
    }

    ghost predicate TablesOk()
      requires Shapes()
      reads tables
    {
      forall c :: 0 <= c < |s.dc| ==>
        dcTables[c].Represents(s.dc[c].lens, s.dc[c].vals) && acTables[c].Represents(s.ac[c].lens, s.ac[c].vals)
    }

    /** Every block of the MCU buffer is zero from its maxZag on. */
    ghost predicate BlocksBounded()
      requires Shapes()
      reads coefficients, maxZag
    {
      forall b :: 0 <= b < |s.mcuOrg| ==>
        1 <= maxZag[b] <= 64 && ZeroFrom(BlockSlice(coefficients[..], b), maxZag[b])
    }

    ghost predicate Valid()
      reads this, reader, coefficients, maxZag, lastDc, tables
    {
      Shapes() && TablesOk() && BlocksBounded() && reader.InEntropySegment() && 0 <= nextRestartNum < 8
    }

    ghost function Now(): State
      requires 0 <= reader.Position()
      reads reader, lastDc
    {
      State(reader.octets, reader.Position(), lastDc[..])
    }

    ghost function Here(): Place
      requires 0 <= reader.Position()
      reads reader, lastDc
    {
      Place(reader.source, reader.fetched, Now())
    }

    /** The beginning of a scan: no coefficients, no predictions. */
    constructor (s: Scan, reader: BitReader, dcTables: seq<HuffTables>, acTables: seq<HuffTables>,
                 mcusPerRow: nat, restartInterval: nat, ghost tables: set<object>)
      requires s.Ok() && |dcTables| == |acTables| == |s.dc| && reader.InEntropySegment() && reader !in tables
      requires forall c :: 0 <= c < |s.dc| ==>
                 && dcTables[c] in tables && dcTables[c].Repr() <= tables
                 && acTables[c] in tables && acTables[c].Repr() <= tables
                 && dcTables[c].Represents(s.dc[c].lens, s.dc[c].vals) && acTables[c].Represents(s.ac[c].lens, s.ac[c].vals)
      ensures Valid() && fresh(coefficients) && fresh(maxZag) && fresh(lastDc) && fresh(samples)
      ensures this.s == s && this.reader == reader && this.mcusPerRow == mcusPerRow && this.restartInterval == restartInterval
      ensures this.dcTables == dcTables && this.acTables == acTables && this.tables == tables
      ensures Here() == Place(reader.source, reader.fetched, State(reader.octets, reader.Position(), seq(|s.dc|, _ => 0)))
      ensures restartsLeft == restartInterval && nextRestartNum == 0
    {
      this.s, this.reader, this.dcTables, this.acTables := s, reader, dcTables, acTables;
      this.mcusPerRow, this.restartInterval := mcusPerRow, restartInterval;
      this.tables := tables;
      RowLength(|s.mcuOrg|, mcusPerRow);
      coefficients := new int[64 * |s.mcuOrg|](_ => 0);
      maxZag := new int[|s.mcuOrg|](_ => 64);
      lastDc := new int[|s.dc|](_ => 0);
      samples := new int[64 * (|s.mcuOrg| * mcusPerRow)](_ => 0);
      restartsLeft, nextRestartNum := restartInterval, 0;
      new;
      hide Covers, SizesOf, Trie.Ok, Trie.Stored, Trie.Looks, BitReader.InEntropySegment, ZeroFrom, BlockSlice;
      NothingFrom(coefficients[..], |s.mcuOrg|);
      assert lastDc[..] == seq(|s.dc|, _ => 0);
    }

    /** Block b of the current MCU. */
    method DecodeOne(b: nat) returns (ok: bool)
      requires Valid() && b < |s.mcuOrg|
      modifies reader, coefficients, maxZag, lastDc
      ensures reader.InEntropySegment() && reader.source == old(reader.source)
      ensures var o := BlockOf(s, b, old(Now()));
              && ok == o.Decoded?
              && (ok ==> |o.block.zz| == 64 && Valid() && Now() == AfterBlock(s, b, old(Now())) &&
                         BlockSlice(coefficients[..], b) == InPlace(o.block.zz))
      ensures forall i :: 0 <= i < |s.mcuOrg| && i != b ==>
                BlockSlice(coefficients[..], i) == old(BlockSlice(coefficients[..], i))
    {
      hide BlockAt, DcAt, DecodeAt, Covers, SizesOf, Trie.Ok, Trie.Stored, Trie.Looks, BitReader.InEntropySegment, ZeroFrom, InPlace;
      var c := s.mcuOrg[b];
      var dcVal, m;
      ok, dcVal, m := DecodeBlock(reader, dcTables[c], acTables[c], s.dc[c], s.ac[c], s.quant[c],
                                  lastDc[c], coefficients, 64 * b, maxZag[b]);
      forall i | 0 <= i < |s.mcuOrg| && i != b
        ensures BlockSlice(coefficients[..], i) == old(BlockSlice(coefficients[..], i))
      {
      }
      assert BlockSlice(coefficients[..], b) == coefficients[64 * b..64 * b + 64];
      if ok {
        lastDc[c] := dcVal;
        maxZag[b] := m;
      }
    }

    /** One MCU: the inner loop of decode_next_row. */
    method DecodeMcu() returns (ok: bool, ghost blocks: seq<seq<int>>)
      requires Valid()
      modifies reader, coefficients, maxZag, lastDc
      ensures reader.InEntropySegment() && reader.source == old(reader.source)
      ensures McuFrom(s, 0, old(Now())) == if ok then McuDone(blocks, Now()) else McuFailed
      ensures ok ==> Valid() && |blocks| == |s.mcuOrg| && Holding(coefficients[..], blocks)
    {
      hide BlockOf, AfterBlock, McuFrom, InPlace, BlockSlice, TablesOk, BlocksBounded, Entropy, Buffer;
      var b := 0;
      blocks := [];
      ok := true;
      McuEnds(s, Now());
      while b < |s.mcuOrg|
        invariant 0 <= b <= |s.mcuOrg| && |blocks| == b && ok
        invariant Valid() && reader.source == old(reader.source)
        invariant McuFrom(s, 0, old(Now())) == Prepend(blocks, McuFrom(s, b, Now()))
        invariant Holding(coefficients[..], blocks)
      {
        ghost var st := Now();
        McuStep(s, b, st, blocks);
        ok := DecodeOne(b);
        if !ok {
          return;
        }
        blocks := blocks + [InPlace(BlockOf(s, b, st).block.zz)];
        b := b + 1;
      }
      McuEnds(s, Now());
    }

    /** transform_mcu: the samples of the current MCU go to the row buffer, from block base on. */
    method TransformMcu(base: nat, ghost blocks: seq<seq<int>>)
      requires Valid() && 64 * (base + |s.mcuOrg|) <= samples.Length
      requires |blocks| == |s.mcuOrg| && Holding(coefficients[..], blocks)
      modifies samples
      ensures AllBlocks(blocks)
      ensures samples[..64 * (base + |s.mcuOrg|)] == old(samples[..64 * base]) + McuSamples(blocks)
    {
      hide Samples, BlockSlice, TablesOk, ZeroFrom, BitReader.InEntropySegment;
      var b := 0;
      while b < |s.mcuOrg|
        invariant 0 <= b <= |s.mcuOrg|
        invariant Shapes() && BlocksBounded() && Holding(coefficients[..], blocks)
        invariant samples[..64 * (base + b)] == old(samples[..64 * base]) + McuSamples(blocks[..b])
      {
        ghost var before := samples[..64 * (base + b)];
        SliceOf(coefficients[..], b);
        Idct(coefficients, 64 * b, samples, 64 * (base + b), maxZag[b]);
        assert samples[..64 * (base + b)] == before;
        assert samples[..64 * (base + b + 1)] == before + samples[64 * (base + b)..64 * (base + b) + 64];
        assert blocks[..b + 1][..b] == blocks[..b];
        b := b + 1;
      }
      assert blocks[..b] == blocks;
    }

    /** process_restart: looks for the next restart marker, and starts over behind it. */
    method ProcessRestart() returns (ok: bool)
      requires Shapes() && reader.InputOk() && 0 <= nextRestartNum < 8
      modifies this, reader, lastDc
      ensures var g := RawStream(old(reader.unread), old(reader.padFlag));
              ok <==> exists k: nat :: RestartAt(g, k, old(nextRestartNum))
      ensures ok ==>
                && reader.InEntropySegment() && reader.Position() == 0 && reader.fetched == 4
                && (exists k: nat :: RestartAt(RawStream(old(reader.unread), old(reader.padFlag)), k, old(nextRestartNum)) &&
                                     reader.source == AfterBytes(old(reader.Rest()), k + 1))
                && (forall c :: 0 <= c < lastDc.Length ==> lastDc[c] == 0)
                && restartsLeft == restartInterval && nextRestartNum == (old(nextRestartNum) + 1) % 8
    {
      hide RawByte, Octet, RestartAt, Raw, Entropy, Buffer, Scan.Ok, AfterBytes, AfterOctets;
      ghost var g := RawStream(reader.unread, reader.padFlag);
      ghost var at;
      ok, at := FindRestart(reader, nextRestartNum);
      if !ok {
        return;
      }
      var k := 0;
      while k < lastDc.Length
        invariant 0 <= k <= lastDc.Length
        invariant forall c :: 0 <= c < k ==> lastDc[c] == 0
        modifies lastDc
      {
        lastDc[k] := 0;
        k := k + 1;
      }
      restartsLeft := restartInterval;
      nextRestartNum := (nextRestartNum + 1) % 8;
      reader.PrimeNoMarkers();
      assert RestartAt(g, at, old(nextRestartNum));
    }

    /** A restart in the middle of a row. */
    method Restart() returns (ok: bool)
      requires Valid()
      modifies this, reader, lastDc
      ensures ok <==> exists p :: Restarted(old(Here()), old(nextRestartNum), p)
      ensures ok ==> Valid() && Restarted(old(Here()), old(nextRestartNum), Here()) && |Now().preds| == |s.dc|
      ensures ok ==> restartsLeft == restartInterval && nextRestartNum == (old(nextRestartNum) + 1) % 8
    {
      hide RawByte, Octet, RestartAt, Raw, Entropy, TablesOk, BlocksBounded, Buffer, AfterBytes, AfterOctets;
      ghost var prev, number := Here(), nextRestartNum;
      assert reader.Rest() == prev.Ahead();
      ok := ProcessRestart();
      RestartNeedsMarker(prev, number);
      if ok {
        assert lastDc[..] == seq(|s.dc|, _ => 0);
        ghost var k: nat :| RestartAt(RawStream(prev.Ahead().bytes, prev.Ahead().flag), k, number) &&
                            reader.source == AfterBytes(prev.Ahead(), k + 1);
        assert Here() == Anew(AfterBytes(prev.Ahead(), k + 1), |prev.state.preds|);
      }
    }

    /** One turn of the outer loop of decode_next_row. */
    method NextMcu(base: nat) returns (ok: bool, ghost run: McuRun)
      requires Valid() && 64 * (base + |s.mcuOrg|) <= samples.Length
      modifies this, reader, coefficients, maxZag, lastDc, samples
      ensures var c := Countdown(old(restartsLeft), old(nextRestartNum));
              if ok then Valid() && run.end == Here() && Follows(s, restartInterval, old(Here()), c, run)
              else Stuck(s, restartInterval, old(Here()), c)
      ensures ok ==> Countdown(restartsLeft, nextRestartNum) ==
                       if restartInterval != 0 && old(restartsLeft) == 0
                       then Countdown(restartInterval - 1, (old(nextRestartNum) + 1) % 8)
                       else Countdown(old(restartsLeft) - 1, old(nextRestartNum))
      ensures ok ==> AllBlocks(run.blocks) &&
                     samples[..64 * (base + |s.mcuOrg|)] == old(samples[..64 * base]) + McuSamples(run.blocks)
    {
      hide BlockAt, McuFrom, TablesOk, Holding, McuSamples, Restarted, AllBlocks, BlocksBounded, ZeroFrom, Entropy, Buffer;
      hide AfterOctets, Octet;
      ok := true;
      ghost var prev, number := Here(), nextRestartNum;
      ghost var start := prev;
      run := McuRun(start, [], start);
      if restartInterval != 0 && restartsLeft == 0 {
        ok := Restart();
        if !ok {
          return;
        }
        start := Here();
        OneStart(prev, number, start);
      }
      ghost var blocks;
      ok, blocks := DecodeMcu();
      if ok {
        run := McuRun(start, blocks, Here());
        TransformMcu(base, blocks);
        restartsLeft := restartsLeft - 1;
      }
    }

    /** decode_next_row, without upsampling in the frequency domain: the row buffer ends up with
        the unpruned inverse DCT of exactly the blocks that the reference decodes, MCU by MCU.
        Each MCU starts where the one before ended, unless a restart is due. It fails just where
        there is no next MCU. */
    method DecodeNextRow() returns (ok: bool, ghost runs: seq<McuRun>)
      requires Valid()
      modifies this, reader, coefficients, maxZag, lastDc, samples
      ensures Chained(s, restartInterval, runs, old(Here()), Countdown(old(restartsLeft), old(nextRestartNum)))
      ensures if ok then |runs| == mcusPerRow
              else |runs| < mcusPerRow &&
                   Stuck(s, restartInterval, Last(runs, old(Here())),
                         CountdownAt(restartInterval, Countdown(old(restartsLeft), old(nextRestartNum)), |runs|))
      ensures ok ==> Valid() && Here() == Last(runs, old(Here())) &&
                     (forall m :: 0 <= m < |runs| ==> AllBlocks(runs[m].blocks)) && RowSamples(runs) == samples[..]
      ensures ok ==> Countdown(restartsLeft, nextRestartNum) ==
                     CountdownAt(restartInterval, Countdown(old(restartsLeft), old(nextRestartNum)), |runs|)
    {
      hide McuFrom, TablesOk, BlocksBounded, Entropy, Buffer, McuSamples, Chained, RowSamples, AllBlocks, Follows, Stuck;
      hide CountdownAt, Last, AfterOctets, Octet;
      runs := [];
      ok := true;
      ghost var p, c := Here(), Countdown(restartsLeft, nextRestartNum);
      NoneChained(s, restartInterval, p, c);
      var row, base := 0, 0;
      while row < mcusPerRow
        invariant 0 <= row <= mcusPerRow && |runs| == row && ok && base == |s.mcuOrg| * row
        invariant Valid()
        invariant Chained(s, restartInterval, runs, p, c) && Last(runs, p) == Here()
        invariant CountdownAt(restartInterval, c, row) == Countdown(restartsLeft, nextRestartNum)
        invariant forall m :: 0 <= m < |runs| ==> AllBlocks(runs[m].blocks)
        invariant base * 64 <= samples.Length && samples[..64 * base] == RowSamples(runs)
      {
        RowFits(|s.mcuOrg|, row, mcusPerRow);
        ghost var run;
        ok, run := NextMcu(base);
        if !ok {
          return;
        }
        ChainStep(s, restartInterval, runs, run, p, c);
        runs := runs + [run];
        base := base + |s.mcuOrg|;
        row := row + 1;
      }
    }
  }

  lemma NothingFrom(p: seq<int>, n: nat)
    requires |p| == 64 * n
    ensures forall b :: 0 <= b < n ==> ZeroFrom(BlockSlice(p, b), 64)
  {
  }

  lemma RestartNeedsMarker(prev: Place, number: int)
    ensures (exists p :: Restarted(prev, number, p)) <==>
            exists k: nat :: RestartAt(RawStream(prev.Ahead().bytes, prev.Ahead().flag), k, number)
  {
    hide RestartAt, AfterBytes, AfterOctets;
    if k: nat :| RestartAt(RawStream(prev.Ahead().bytes, prev.Ahead().flag), k, number) {
      assert Restarted(prev, number, Anew(AfterBytes(prev.Ahead(), k + 1), |prev.state.preds|));
    }
  }

  lemma OneStart(prev: Place, number: int, start: Place)
    requires Restarted(prev, number, start) && 0 <= number < 8
    ensures forall p :: Restarted(prev, number, p) ==> p == start
  {
    hide Restarted;
    forall p | Restarted(prev, number, p)
      ensures p == start
    {
      RestartedUnique(prev, number, p, start);
    }
  }

  lemma NoneChained(s: Scan, interval: nat, p: Place, c: Countdown)
    requires s.Ok()
    ensures Chained(s, interval, [], p, c) && RowSamples([]) == [] && Last([], p) == p
    ensures CountdownAt(interval, c, 0) == c
  {
  }

  lemma ChainStep(s: Scan, interval: nat, runs: seq<McuRun>, run: McuRun, p: Place, c: Countdown)
    requires s.Ok() && Chained(s, interval, runs, p, c)
    requires Follows(s, interval, Last(runs, p), CountdownAt(interval, c, |runs|), run)
    ensures Chained(s, interval, runs + [run], p, c) && Last(runs + [run], p) == run.end
    ensures var count := CountdownAt(interval, c, |runs|);
            CountdownAt(interval, c, |runs| + 1) ==
            if Due(interval, count) then Countdown(interval - 1, (count.number + 1) % 8)
            else Countdown(count.left - 1, count.number)
    ensures (forall m :: 0 <= m < |runs| ==> AllBlocks(runs[m].blocks)) && AllBlocks(run.blocks) ==>
              RowSamples(runs + [run]) == RowSamples(runs) + McuSamples(run.blocks)
  {
    hide Follows, McuSamples, AllBlocks;
    assert (runs + [run])[..|runs|] == runs;
  }

  lemma RowLength(n: nat, rows: nat)
    ensures n * rows >= 0
  {
  }

  lemma RowFits(n: nat, row: nat, rows: nat)
    requires row < rows
    ensures n * row + n == n * (row + 1) <= n * rows
  {
  }

  /** The buffer begins with these blocks. */
  ghost predicate Holding(p: seq<int>, blocks: seq<seq<int>>) {
    && 64 * |blocks| <= |p|
    && forall i :: 0 <= i < |blocks| ==> |blocks[i]| == 64 && BlockSlice(p, i) == blocks[i]
  }

  lemma SliceOf(p: seq<int>, b: nat)
    requires 64 * b + 64 <= |p|
    ensures BlockSlice(p, b) == p[64 * b..64 * b + 64]
  {
  }

  function BlockSlice(p: seq<int>, b: nat): (r: seq<int>)
    requires 64 * b + 64 <= |p|
    ensures |r| == 64
  {
    p[64 * b..64 * b + 64]
  }
}
