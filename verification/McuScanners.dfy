/** Going through the blocks of an image: jpeg_decoder::init_frame, calc_mcu_block_order,
    decode_scan and load_next_row, as far as they deal with MCUs. */
module McuScanners {
  import opened Arith
  import opened McuGeometry

  const MAX_COMPONENTS := 4
  const MAX_BLOCKS_PER_MCU := 10

  /** The component of each block of an MCU, for the first n components of the scan. */
  ghost function Org(f: Frame, list: seq<nat>, n: nat): seq<nat>
    requires IsScan(f, list) && n <= |list|
  {
    if n == 0 then []
    else Org(f, list, n - 1) + seq(Across(f, list, list[n - 1]) * Down(f, list, list[n - 1]), _ => list[n - 1])
  }

  lemma {:induction false} OrgAt(f: Frame, list: seq<nat>, n: nat, i: nat, o: nat)
    requires IsScan(f, list) && i < n <= |list| && o < Across(f, list, list[i]) * Down(f, list, list[i])
    ensures |Org(f, list, i)| + o < |Org(f, list, n)| && Org(f, list, n)[|Org(f, list, i)| + o] == list[i]
    decreases n
  {
    hide Across, Down;
    if i < n - 1 {
      OrgAt(f, list, n - 1, i, o);
    }
  }

  lemma OrgStep(f: Frame, list: seq<nat>, i: nat)
    requires IsScan(f, list) && i < |list|
    ensures |Org(f, list, i + 1)| == |Org(f, list, i)| + Across(f, list, list[i]) * Down(f, list, list[i])
  {
  }

  /** Different numbers below k are at most k. */
  lemma {:induction false} Pigeonhole(list: seq<nat>, k: nat)
    requires forall i :: 0 <= i < |list| ==> list[i] < k
    requires forall i, j :: 0 <= i < j < |list| ==> list[i] != list[j]
    ensures |list| <= k
  {
    if list != [] {
      assert list[0] < k;
      if i :| 0 <= i < |list| && list[i] == k - 1 {
        Pigeonhole(list[..i] + list[i + 1..], k - 1);
      } else {
        Pigeonhole(list, k - 1);
      }
    }
  }

  /** An MCU has at most six blocks. */
  lemma {:induction false} OrgIsShort(f: Frame, list: seq<nat>, n: nat)
    requires IsScan(f, list) && n <= |list|
    ensures |Org(f, list, n)| <= n + if 0 in list[..n] then 3 else 0
  {
    if n > 0 {
      OrgIsShort(f, list, n - 1);
      assert list[..n] == list[..n - 1] + [list[n - 1]];
    }
  }

  /** Counting through h by v blocks. */
  lemma Counting(o: nat, h: nat, v: nat)
    requires 1 <= h <= 2 && 1 <= v <= 2 && o < h * v
    ensures if o % h + 1 < h then o + 1 < h * v && (o + 1) % h == o % h + 1 && (o + 1) / h == o / h
            else if o / h + 1 < v then o + 1 < h * v && (o + 1) % h == 0 && (o + 1) / h == o / h + 1
            else o + 1 == h * v
  {
  }

  /** The first o blocks of a component in an MCU. */
  ghost function Part(f: Frame, list: seq<nat>, c: nat, mx: nat, my: nat, o: nat): seq<Visit>
    requires f.Accepted() && c < |f.h| && o <= Across(f, list, c) * Down(f, list, c)
  {
    Tile(f, list, c, mx, my)[..o]
  }

  /** What has been visited of an MCU: i whole components, and o blocks of the next one. */
  ghost function SoFar(f: Frame, list: seq<nat>, i: nat, o: nat, mx: nat, my: nat): seq<Visit>
    requires IsScan(f, list) && i <= |list|
    requires i < |list| ==> o <= Across(f, list, list[i]) * Down(f, list, list[i])
  {
    if i == |list| then Mcu(f, list, i, mx, my)
    else Mcu(f, list, i, mx, my) + Part(f, list, list[i], mx, my, o)
  }

  lemma NoneYet(f: Frame, list: seq<nat>, i: nat, mx: nat, my: nat)
    requires IsScan(f, list) && i <= |list|
    ensures SoFar(f, list, i, 0, mx, my) == Mcu(f, list, i, mx, my)
    ensures i == 0 ==> Mcu(f, list, i, mx, my) == [] && Org(f, list, i) == []
  {
  }

  lemma OneBlock(f: Frame, list: seq<nat>, i: nat, o: nat, mx: nat, my: nat)
    requires IsScan(f, list) && i < |list| && o < Across(f, list, list[i]) * Down(f, list, list[i])
    ensures var c := list[i]; var h, v := Across(f, list, c), Down(f, list, c);
            SoFar(f, list, i, o, mx, my) + [Visit(c, mx * h + o % h, my * v + o / h)] ==
            if o + 1 == h * v then Mcu(f, list, i + 1, mx, my) else SoFar(f, list, i, o + 1, mx, my)
  {
    hide Across, Down;
    var c := list[i];
    var h, v := Across(f, list, c), Down(f, list, c);
    var t := Tile(f, list, c, mx, my);
    assert t[..o + 1] == t[..o] + [Visit(c, mx * h + o % h, my * v + o / h)];
    if o + 1 == h * v {
      assert t[..o + 1] == t;
    }
  }

  lemma Sampling(f: Frame, list: seq<nat>, c: nat)
    requires f.Accepted() && c < |f.h|
    ensures if |list| == 1 then Across(f, list, c) == Down(f, list, c) == 1
            else Across(f, list, c) == f.h[c] && Down(f, list, c) == f.v[c]
  {
  }

  lemma OrgOfOne(f: Frame, list: seq<nat>)
    requires IsScan(f, list) && |list| == 1
    ensures Org(f, list, 1) == [list[0]]
  {
    assert Org(f, list, 0) == [];
  }

  lemma AsCeil(f: Frame, list: seq<nat>, maxH: nat, maxV: nat)
    requires IsScan(f, list) && maxH == f.MaxH() && maxV == f.MaxV()
    ensures if |list| == 1
            then McusAcross(f, list) == ((f.width * f.h[list[0]] + (maxH - 1)) / maxH + 7) / 8 &&
                 McusDown(f, list) == ((f.height * f.v[list[0]] + (maxV - 1)) / maxV + 7) / 8
            else McusAcross(f, list) == ((f.width + 7) / 8 + (maxH - 1)) / maxH &&
                 McusDown(f, list) == ((f.height + 7) / 8 + (maxV - 1)) / maxV
  {
  }

  /** The places of the restarts among total MCUs: after each interval, but not at the end. */
  ghost predicate EachInterval(interval: nat, total: nat, restarts: seq<nat>) {
    && (forall k :: 0 <= k < |restarts| ==> restarts[k] == (k + 1) * interval && 0 < restarts[k] < total)
    && (interval != 0 ==> total <= (|restarts| + 1) * interval)
    && (interval == 0 ==> restarts == [])
  }

  ghost function LastOf(restarts: seq<nat>): nat {
    if restarts == [] then 0 else restarts[|restarts| - 1]
  }

  lemma NoMcus(interval: nat)
    ensures EachInterval(interval, 0, [])
  {
  }

  lemma OneMoreMcu(interval: nat, total: nat, restarts: seq<nat>)
    requires EachInterval(interval, total, restarts)
    ensures interval != 0 && total > 0 && total == LastOf(restarts) + interval ==>
              EachInterval(interval, total + 1, restarts + [total])
    ensures interval == 0 || total < LastOf(restarts) + interval ==> EachInterval(interval, total + 1, restarts)
  {
    var n := |restarts|;
    assert (n + 1) * interval == n * interval + interval;
    assert LastOf(restarts) == n * interval;
  }

  /** A restart comes before an MCU exactly if its number is a multiple of the interval. */
  lemma RestartPlaces(interval: nat, total: nat, restarts: seq<nat>, m: nat)
    requires EachInterval(interval, total, restarts) && interval > 0
    ensures m in restarts <==> 0 < m < total && m % interval == 0
  {
    if m in restarts {
      var k: nat :| k < |restarts| && restarts[k] == m;
      DivModUnique(m, interval, k + 1, 0);
    }
    if 0 < m < total && m % interval == 0 {
      var q := m / interval;
      assert m == q * interval;
      if q > |restarts| {
        MulMonotone(|restarts| + 1, q, interval);
        assert false;
      }
      assert restarts[q - 1] == m;
    }
  }

  class McuScanner {
    const frame: Frame
    var compList: seq<nat>
    const mcuOrg: array<nat>
    var blocksPerMcu: nat
    var mcusPerRow: nat
    var mcusPerCol: nat
    var restartInterval: nat
    var restartsLeft: int
    const blockYMcu: array<nat>

    ghost predicate Shapes() {
      mcuOrg != blockYMcu && mcuOrg.Length == MAX_BLOCKS_PER_MCU && blockYMcu.Length == MAX_COMPONENTS
    }

    /** The order of the blocks has been worked out for the current scan. */
    ghost predicate Ready()
      reads this, mcuOrg
    {
      && Shapes() && IsScan(frame, compList)
      && mcusPerRow == McusAcross(frame, compList) && mcusPerCol == McusDown(frame, compList)
      && blocksPerMcu <= MAX_BLOCKS_PER_MCU
      && mcuOrg[..blocksPerMcu] == Org(frame, compList, |compList|)
    }

    /** The columns reached: MCU mx begins at column blockX[c] of component c. */
    ghost predicate AtColumn(blockX: array<nat>, mx: nat)
      requires IsScan(frame, compList) && blockX.Length == MAX_COMPONENTS
      reads this, blockX
    {
      forall i :: 0 <= i < |compList| ==> blockX[compList[i]] == mx * Across(frame, compList, compList[i])
    }

    ghost predicate AtRow(blockY: array<nat>, my: nat)
      requires IsScan(frame, compList) && blockY.Length == MAX_COMPONENTS
      reads this, blockY
    {
      forall i :: 0 <= i < |compList| ==> blockY[compList[i]] == my * Down(frame, compList, compList[i])
    }

    constructor (f: Frame)
      requires f.Accepted()
      ensures Shapes() && frame == f && fresh(mcuOrg) && fresh(blockYMcu)
      ensures forall c :: 0 <= c < MAX_COMPONENTS ==> blockYMcu[c] == 0
    {
      frame := f;
      compList := [];
      mcuOrg := new nat[MAX_BLOCKS_PER_MCU](_ => 0);
      blocksPerMcu, mcusPerRow, mcusPerCol := 0, 0, 0;
      restartInterval, restartsLeft := 0, 0;
      blockYMcu := new nat[MAX_COMPONENTS](_ => 0);
    }

    /** calc_mcu_block_order. */
    method CalcMcuBlockOrder()
      requires Shapes() && IsScan(frame, compList)
      modifies this, mcuOrg
      ensures Ready() && compList == old(compList)
    {
      hide Ceil, Across, Down, McusAcross, McusDown, Org;
      var maxH, maxV, c := 0, 0, 0;
      while c < |frame.h|
        modifies {}
        invariant 0 <= c <= |frame.h|
        invariant maxH == if c == 0 then 0 else frame.MaxH()
        invariant maxV == if c == 0 then 0 else frame.MaxV()
      {
        if frame.h[c] > maxH {
          maxH := frame.h[c];
        }
        if frame.v[c] > maxV {
          maxV := frame.v[c];
        }
        c := c + 1;
      }
      if |compList| == 1 {
        mcusPerRow := (((frame.width * frame.h[compList[0]]) + (maxH - 1)) / maxH + 7) / 8;
        mcusPerCol := (((frame.height * frame.v[compList[0]]) + (maxV - 1)) / maxV + 7) / 8;
        mcuOrg[0] := compList[0];
        blocksPerMcu := 1;
        OrgOfOne(frame, compList);
      } else {
        mcusPerRow := (((frame.width + 7) / 8) + (maxH - 1)) / maxH;
        mcusPerCol := (((frame.height + 7) / 8) + (maxV - 1)) / maxV;
        blocksPerMcu := 0;
        ListBlocks();
      }
      AsCeil(frame, compList, maxH, maxV);
    }

    /** The part of calc_mcu_block_order for interleaved scans. */
    method ListBlocks()
      requires Shapes() && IsScan(frame, compList) && |compList| > 1 && blocksPerMcu == 0
      modifies this`blocksPerMcu, mcuOrg
      ensures blocksPerMcu <= MAX_BLOCKS_PER_MCU && mcuOrg[..blocksPerMcu] == Org(frame, compList, |compList|)
    {
      var n := 0;
      while n < |compList|
        invariant 0 <= n <= |compList| && blocksPerMcu <= MAX_BLOCKS_PER_MCU
        invariant mcuOrg[..blocksPerMcu] == Org(frame, compList, n)
      {
        var c := compList[n];
        OrgStep(frame, compList, n);
        OrgIsShort(frame, compList, n + 1);
        Pigeonhole(compList, |frame.h|);
        AppendBlocks(c, frame.h[c] * frame.v[c]);
        n := n + 1;
      }
    }

    /** Appends a number of blocks of the same component to the order. */
    method AppendBlocks(c: nat, n: nat)
      requires Shapes() && blocksPerMcu + n <= MAX_BLOCKS_PER_MCU
      modifies this`blocksPerMcu, mcuOrg
      ensures blocksPerMcu == old(blocksPerMcu) + n
      ensures mcuOrg[..blocksPerMcu] == old(mcuOrg[..blocksPerMcu]) + seq(n, _ => c)
    {
      var numBlocks := n;
      while numBlocks > 0
        invariant 0 <= numBlocks <= n && blocksPerMcu == old(blocksPerMcu) + (n - numBlocks)
        invariant mcuOrg[..blocksPerMcu] == old(mcuOrg[..blocksPerMcu]) + seq(n - numBlocks, _ => c)
      {
        ghost var was := mcuOrg[..blocksPerMcu];
        numBlocks := numBlocks - 1;
        mcuOrg[blocksPerMcu] := c;
        blocksPerMcu := blocksPerMcu + 1;
        assert mcuOrg[..blocksPerMcu] == was + [c];
      }
    }

    /** From block number o of a component on to the next one, or past the component's last one. */
    method NextBlock(blockX: array<nat>, c: nat, x: nat, y: nat, ghost o: nat) returns (x': nat, y': nat)
      requires Shapes() && IsScan(frame, compList) && c < |frame.h| && blockX.Length == MAX_COMPONENTS
      requires var h, v := Across(frame, compList, c), Down(frame, compList, c);
               o < h * v && x == o % h && y == o / h
      modifies blockX
      ensures var h, v := Across(frame, compList, c), Down(frame, compList, c);
              && (if o + 1 == h * v then x' == y' == 0 else x' == (o + 1) % h && y' == (o + 1) / h)
              && blockX[c] == old(blockX[c]) + if o + 1 == h * v then h else 0
      ensures forall d :: 0 <= d < blockX.Length && d != c ==> blockX[d] == old(blockX[d])
    {
      Sampling(frame, compList, c);
      ghost var h, v := Across(frame, compList, c), Down(frame, compList, c);
      hide Across, Down, IsScan;
      Counting(o, h, v);
      x', y' := x, y;
      if |compList| == 1 {
        blockX[c] := blockX[c] + 1;
      } else {
        x' := x' + 1;
        if x' == frame.h[c] {
          x' := 0;
          y' := y' + 1;
          if y' == frame.v[c] {
            y' := 0;
            blockX[c] := blockX[c] + frame.h[c];
          }
        }
      }
    }

    /** The blocks of one MCU, as decode_scan and load_next_row both go through them. */
    method VisitMcu(blockX: array<nat>, blockY: array<nat>, ghost mx: nat, ghost my: nat) returns (visits: seq<Visit>)
      requires Ready() && blockX.Length == blockY.Length == MAX_COMPONENTS
      requires blockX != blockY && blockX != mcuOrg && AtColumn(blockX, mx) && AtRow(blockY, my)
      modifies blockX
      ensures visits == Mcu(frame, compList, |compList|, mx, my) && AtColumn(blockX, mx + 1)
    {
      hide Across, Down, Tile, Mcu, Org, McusAcross, McusDown, SoFar;
      var xOfs, yOfs := 0, 0;
      visits := [];
      ghost var i, o := 0, 0;
      ghost var f, list := frame, compList;
      NoneYet(f, list, 0, mx, my);
      var k := 0;
      while k < blocksPerMcu
        modifies blockX
        invariant 0 <= i <= |list| && 0 <= o && k == |Org(f, list, i)| + o <= blocksPerMcu
        invariant i == |list| ==> o == 0
        invariant i < |list| ==>
                    var h, v := Across(f, list, list[i]), Down(f, list, list[i]);
                    o < h * v && xOfs == o % h && yOfs == o / h
        invariant visits == SoFar(f, list, i, o, mx, my)
        invariant forall j :: 0 <= j < |list| ==>
                    blockX[list[j]] == (if j < i then mx + 1 else mx) * Across(f, list, list[j])
      {
        OrgAt(f, list, |list|, i, o);
        var c := mcuOrg[k];
        ghost var h, v := Across(f, list, c), Down(f, list, c);
        visits := visits + [Visit(c, blockX[c] + xOfs, blockY[c] + yOfs)];
        OneBlock(f, list, i, o, mx, my);
        Next(mx, h);
        OrgStep(f, list, i);
        NoneYet(f, list, i + 1, mx, my);
        xOfs, yOfs := NextBlock(blockX, c, xOfs, yOfs, o);
        i, o := if o + 1 == h * v then i + 1 else i, if o + 1 == h * v then 0 else o + 1;
        k := k + 1;
      }
      if i < |list| {
        OrgAt(f, list, |list|, i, o);
      }
      NoneYet(f, list, |list|, mx, my);
    }

    /** One row of MCUs. */
    method VisitRow(blockY: array<nat>, ghost my: nat) returns (visits: seq<Visit>)
      requires Ready() && blockY.Length == MAX_COMPONENTS && AtRow(blockY, my)
      ensures visits == Row(frame, compList, mcusPerRow, my)
    {
      hide Across, Down, Mcu, Org, McusAcross, McusDown;
      var blockX := new nat[MAX_COMPONENTS](_ => 0);
      visits := [];
      var mcu := 0;
      assert blockX != blockY && blockX != mcuOrg;
      while mcu < mcusPerRow
        modifies blockX
        invariant 0 <= mcu <= mcusPerRow && AtColumn(blockX, mcu)
        invariant visits == Row(frame, compList, mcu, my)
      {
        var blocks := VisitMcu(blockX, blockY, mcu, my);
        visits := visits + blocks;
        mcu := mcu + 1;
      }
    }

    /** Goes on to the next row of MCUs. */
    method NextRow(blockY: array<nat>, ghost my: nat)
      requires Shapes() && IsScan(frame, compList) && blockY.Length == MAX_COMPONENTS && AtRow(blockY, my)
      modifies blockY
      ensures AtRow(blockY, my + 1)
    {
      hide Across, Down;
      if |compList| == 1 {
        Sampling(frame, compList, compList[0]);
        blockY[compList[0]] := blockY[compList[0]] + 1;
      } else {
        var n := 0;
        while n < |compList|
          invariant 0 <= n <= |compList|
          invariant forall i :: 0 <= i < |compList| ==>
                      blockY[compList[i]] == (if i < n then my + 1 else my) * Down(frame, compList, compList[i])
        {
          var c := compList[n];
          Sampling(frame, compList, c);
          Next(my, Down(frame, compList, c));
          blockY[c] := blockY[c] + frame.v[c];
          n := n + 1;
        }
      }
    }

    /** The countdown to the next restart, of which the last one was before MCU number last. */
    ghost predicate CountsFrom(last: nat, done: nat)
      reads this
    {
      restartInterval != 0 ==> last <= done && restartsLeft == restartInterval - (done - last) >= 0 && (done == last ==> done == 0)
    }

    /** One row of MCUs of a scan, with done MCUs before it. */
    method ScanRow(blockY: array<nat>, before: nat, earlier: seq<nat>, ghost my: nat)
      returns (visits: seq<Visit>, done: nat, restarts: seq<nat>)
      requires Ready() && blockY.Length == MAX_COMPONENTS && AtRow(blockY, my)
      requires EachInterval(restartInterval, before, earlier) && CountsFrom(LastOf(earlier), before)
      modifies this`restartsLeft
      ensures Ready() && AtRow(blockY, my)
      ensures visits == Row(frame, compList, mcusPerRow, my) && done == before + mcusPerRow
      ensures EachInterval(restartInterval, done, restarts) && CountsFrom(LastOf(restarts), done)
    {
      hide Across, Down, Mcu, Org, McusAcross, McusDown, EachInterval;
      var blockX := new nat[MAX_COMPONENTS](_ => 0);
      visits, done, restarts := [], before, earlier;
      var mcu := 0;
      assert blockX != blockY && blockX != mcuOrg;
      while mcu < mcusPerRow
        modifies blockX, this`restartsLeft
        invariant 0 <= mcu <= mcusPerRow && AtColumn(blockX, mcu) && Ready() && AtRow(blockY, my)
        invariant visits == Row(frame, compList, mcu, my) && done == before + mcu
        invariant EachInterval(restartInterval, done, restarts) && CountsFrom(LastOf(restarts), done)
      {
        OneMoreMcu(restartInterval, done, restarts);
        if restartInterval != 0 && restartsLeft == 0 {
          restarts := restarts + [done];
          restartsLeft := restartInterval;
        }
        var blocks := VisitMcu(blockX, blockY, mcu, my);
        visits := visits + blocks;
        restartsLeft := restartsLeft - 1;
        mcu, done := mcu + 1, done + 1;
      }
    }

    /** decode_scan: the blocks handed to the block decoder in order, and how many MCUs come before each
        restart. */
    method DecodeScan() returns (visits: seq<Visit>, restarts: seq<nat>)
      requires Ready() && (restartInterval != 0 ==> restartsLeft == restartInterval)
      modifies this`restartsLeft
      ensures visits == ScanOrder(frame, compList)
      ensures EachInterval(restartInterval, mcusPerRow * mcusPerCol, restarts)
    {
      hide Across, Down, Row, Org, McusAcross, McusDown, EachInterval;
      var blockY := new nat[MAX_COMPONENTS](_ => 0);
      visits, restarts := [], [];
      NoMcus(restartInterval);
      var mcu, done := 0, 0;
      while mcu < mcusPerCol
        modifies blockY, this`restartsLeft
        invariant 0 <= mcu <= mcusPerCol && Ready() && AtRow(blockY, mcu)
        invariant visits == Rows(frame, compList, mcu) && done == mcusPerRow * mcu
        invariant EachInterval(restartInterval, done, restarts) && CountsFrom(LastOf(restarts), done)
      {
        var row;
        row, done, restarts := ScanRow(blockY, done, restarts, mcu);
        visits := visits + row;
        NextRow(blockY, mcu);
        mcu := mcu + 1;
      }
    }

    /** load_next_row: the blocks read for the next row of MCUs, which is row my. */
    method LoadNextRow(ghost my: nat) returns (blocks: seq<Visit>)
      requires Ready() && AtRow(blockYMcu, my)
      modifies blockYMcu
      ensures blocks == Row(frame, compList, mcusPerRow, my)
      ensures Ready() && AtRow(blockYMcu, my + 1)
    {
      hide Across, Down, Row, Org, McusAcross, McusDown;
      blocks := VisitRow(blockYMcu, my);
      NextRow(blockYMcu, my);
    }
  }

  /** init_frame: which frames are supported, and how many MCUs they have. */
  method InitFrame(f: Frame) returns (ok: bool, mcusAcross: nat, mcusDown: nat)
    requires 1 <= f.width <= 16384 && 1 <= f.height <= 16384 && |f.h| == |f.v| <= MAX_COMPONENTS
    ensures ok == f.Accepted()
    ensures ok ==> mcusAcross == FrameMcusAcross(f) && mcusDown == FrameMcusDown(f)
  {
    var mcuWidth, mcuHeight := 8, 8;
    ok, mcusAcross, mcusDown := true, 0, 0;
    if |f.h| == 1 {
      if f.h[0] != 1 || f.v[0] != 1 {
        return false, 0, 0;
      }
    } else if |f.h| == 3 {
      if f.h[1] != 1 || f.v[1] != 1 || f.h[2] != 1 || f.v[2] != 1 {
        return false, 0, 0;
      }
      if f.h[0] == 1 && f.v[0] == 1 {
      } else if f.h[0] == 2 && f.v[0] == 1 {
        mcuWidth := 16;
      } else if f.h[0] == 1 && f.v[0] == 2 {
        mcuHeight := 16;
      } else if f.h[0] == 2 && f.v[0] == 2 {
        mcuWidth, mcuHeight := 16, 16;
      } else {
        return false, 0, 0;
      }
    } else {
      return false, 0, 0;
    }
    mcusAcross := (f.width + (mcuWidth - 1)) / mcuWidth;
    mcusDown := (f.height + (mcuHeight - 1)) / mcuHeight;
  }
}
