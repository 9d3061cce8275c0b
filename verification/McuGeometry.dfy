/** Which blocks a scan of a progressive image visits, in which order: ITU-T T.81 section A.2. */
module McuGeometry {
  import opened Arith

  /** An image with the sampling factors of its components. */
  datatype Frame = Frame(width: nat, height: nat, h: seq<nat>, v: seq<nat>) {
    /** The frames that jpeg_decoder::init_frame accepts: one component, or three of which only
        the first may be sampled twice as densely in either direction. */
    predicate Accepted() {
      && 1 <= width <= 16384 && 1 <= height <= 16384 && |h| == |v|
      && ((|h| == 1 && h[0] == 1 && v[0] == 1) ||
          (|h| == 3 && 1 <= h[0] <= 2 && 1 <= v[0] <= 2 && h[1] == v[1] == h[2] == v[2] == 1))
    }

    /** The densest sampling. */
    function MaxH(): (r: nat)
      requires Accepted()
      ensures 1 <= r <= 2 && forall c :: 0 <= c < |h| ==> 1 <= h[c] <= r
    {
      h[0]
    }

    function MaxV(): (r: nat)
      requires Accepted()
      ensures 1 <= r <= 2 && forall c :: 0 <= c < |v| ==> 1 <= v[c] <= r
    {
      v[0]
    }
  }

  /** The quotient, rounded up. */
  function Ceil(a: nat, b: nat): (q: nat)
    requires b > 0
  {
    (a + (b - 1)) / b
  }

  /** A component has a block wherever it has a sample. */
  function BlocksAcross(f: Frame, c: nat): nat
    requires f.Accepted() && c < |f.h|
  {
    Ceil(Ceil(f.width * f.h[c], f.MaxH()), 8)
  }

  function BlocksDown(f: Frame, c: nat): nat
    requires f.Accepted() && c < |f.h|
  {
    Ceil(Ceil(f.height * f.v[c], f.MaxV()), 8)
  }

  /** The MCUs of the whole frame, as jpeg_decoder::init_frame counts them. */
  function FrameMcusAcross(f: Frame): nat
    requires f.Accepted()
  {
    Ceil(f.width, 8 * f.MaxH())
  }

  function FrameMcusDown(f: Frame): nat
    requires f.Accepted()
  {
    Ceil(f.height, 8 * f.MaxV())
  }

  // ---- scans ----

  /** The components of a scan, all different. */
  ghost predicate IsScan(f: Frame, list: seq<nat>) {
    && f.Accepted() && 1 <= |list|
    && (forall i :: 0 <= i < |list| ==> list[i] < |f.h|)
    && forall i, j :: 0 <= i < j < |list| ==> list[i] != list[j]
  }

  /** How many blocks of a component an MCU of the scan has across; one if the scan is not
      interleaved. */
  function Across(f: Frame, list: seq<nat>, c: nat): (r: nat)
    requires f.Accepted() && c < |f.h|
    ensures 1 <= r <= 2
  {
    if |list| == 1 then 1 else f.h[c]
  }

  function Down(f: Frame, list: seq<nat>, c: nat): (r: nat)
    requires f.Accepted() && c < |f.h|
    ensures 1 <= r <= 2
  {
    if |list| == 1 then 1 else f.v[c]
  }

  /** The MCUs of a scan, as jpeg_decoder::calc_mcu_block_order counts them. */
  ghost function McusAcross(f: Frame, list: seq<nat>): nat
    requires IsScan(f, list)
  {
    if |list| == 1 then BlocksAcross(f, list[0]) else Ceil(Ceil(f.width, 8), f.MaxH())
  }

  ghost function McusDown(f: Frame, list: seq<nat>): nat
    requires IsScan(f, list)
  {
    if |list| == 1 then BlocksDown(f, list[0]) else Ceil(Ceil(f.height, 8), f.MaxV())
  }

  /** Block (x, y) of component c. */
  datatype Visit = Visit(c: nat, x: nat, y: nat)

  /** The h by v blocks of a component from block (x, y) on, row by row. */
  function Blocks(c: nat, x: nat, y: nat, h: nat, v: nat): (t: seq<Visit>)
    requires 1 <= h <= 2 && 1 <= v <= 2
    ensures |t| == h * v
  {
    seq(h * v, o requires 0 <= o < h * v => Visit(c, x + o % h, y + o / h))
  }

  /** The blocks of a component in MCU (mx, my). */
  function Tile(f: Frame, list: seq<nat>, c: nat, mx: nat, my: nat): seq<Visit>
    requires f.Accepted() && c < |f.h|
  {
    var h, v := Across(f, list, c), Down(f, list, c);
    Blocks(c, mx * h, my * v, h, v)
  }

  /** The blocks of the first n components of the scan in MCU (mx, my). */
  ghost function Mcu(f: Frame, list: seq<nat>, n: nat, mx: nat, my: nat): seq<Visit>
    requires IsScan(f, list) && n <= |list|
  {
    if n == 0 then [] else Mcu(f, list, n - 1, mx, my) + Tile(f, list, list[n - 1], mx, my)
  }

  /** The first mx MCUs of MCU row my. */
  ghost function Row(f: Frame, list: seq<nat>, mx: nat, my: nat): seq<Visit>
    requires IsScan(f, list)
  {
    if mx == 0 then [] else Row(f, list, mx - 1, my) + Mcu(f, list, |list|, mx - 1, my)
  }

  /** The first my MCU rows. */
  ghost function Rows(f: Frame, list: seq<nat>, my: nat): seq<Visit>
    requires IsScan(f, list)
  {
    if my == 0 then [] else Rows(f, list, my - 1) + Row(f, list, McusAcross(f, list), my - 1)
  }

  /** All blocks of a scan, in the order of T.81 section A.2. */
  ghost function ScanOrder(f: Frame, list: seq<nat>): seq<Visit>
    requires IsScan(f, list)
  {
    Rows(f, list, McusDown(f, list))
  }

  /** The blocks that a scan has to code. */
  ghost predicate InGrid(f: Frame, list: seq<nat>, w: Visit)
    requires IsScan(f, list)
  {
    && w.c in list
    && w.x < McusAcross(f, list) * Across(f, list, w.c)
    && w.y < McusDown(f, list) * Down(f, list, w.c)
  }

  // ---- every block once ----

  function Count(s: seq<Visit>, w: Visit): nat {
    multiset(s)[w]
  }

  lemma CountAppend(s: seq<Visit>, t: seq<Visit>, w: Visit)
    ensures Count(s + t, w) == Count(s, w) + Count(t, w)
  {
  }

  ghost predicate InTile(f: Frame, list: seq<nat>, c: nat, mx: nat, my: nat, w: Visit)
    requires f.Accepted() && c < |f.h|
  {
    var h, v := Across(f, list, c), Down(f, list, c);
    w.c == c && mx * h <= w.x < (mx + 1) * h && my * v <= w.y < (my + 1) * v
  }

  lemma CountNothing(w: Visit)
    ensures Count([], w) == 0
  {
  }

  lemma OtherTile(f: Frame, list: seq<nat>, c: nat, mx: nat, my: nat, w: Visit)
    requires f.Accepted() && c < |f.h| && w.c != c
    ensures !InTile(f, list, c, mx, my, w)
  {
  }

  lemma CountOne(u: Visit, w: Visit)
    ensures Count([u], w) == if w == u then 1 else 0
  {
  }

  lemma PairCount(c: nat, x: nat, y: nat, w: Visit)
    ensures Count([Visit(c, x, y), Visit(c, x + 1, y)], w) == if w.c == c && x <= w.x < x + 2 && w.y == y then 1 else 0
  {
    hide Count;
    var u, u' := Visit(c, x, y), Visit(c, x + 1, y);
    assert [u, u'] == [u] + [u'];
    CountAppend([u], [u'], w);
    CountOne(u, w);
    CountOne(u', w);
  }

  lemma BlocksCount(c: nat, x: nat, y: nat, h: nat, v: nat, w: Visit)
    requires 1 <= h <= 2 && 1 <= v <= 2
    ensures Count(Blocks(c, x, y, h, v), w) == if w.c == c && x <= w.x < x + h && y <= w.y < y + v then 1 else 0
  {
    hide Count;
    var t := Blocks(c, x, y, h, v);
    if h == 1 {
      CountOne(Visit(c, x, y), w);
      CountOne(Visit(c, x, y + 1), w);
      if v == 1 {
        assert t == [Visit(c, x, y)];
      } else {
        assert t == [Visit(c, x, y)] + [Visit(c, x, y + 1)];
        CountAppend([Visit(c, x, y)], [Visit(c, x, y + 1)], w);
      }
    } else {
      var r, r' := [Visit(c, x, y), Visit(c, x + 1, y)], [Visit(c, x, y + 1), Visit(c, x + 1, y + 1)];
      PairCount(c, x, y, w);
      PairCount(c, x, y + 1, w);
      if v == 1 {
        assert t == r;
      } else {
        assert t == r + r';
        CountAppend(r, r', w);
      }
    }
  }

  lemma TileCount(f: Frame, list: seq<nat>, c: nat, mx: nat, my: nat, w: Visit)
    requires f.Accepted() && c < |f.h|
    ensures Count(Tile(f, list, c, mx, my), w) == if InTile(f, list, c, mx, my, w) then 1 else 0
  {
    hide Blocks, Count;
    var h, v := Across(f, list, c), Down(f, list, c);
    BlocksCount(c, mx * h, my * v, h, v, w);
    Next(mx, h);
    Next(my, v);
  }

  lemma Next(k: int, n: int)
    ensures (k + 1) * n == k * n + n
  {
  }

  lemma {:induction false} McuCount(f: Frame, list: seq<nat>, n: nat, mx: nat, my: nat, w: Visit)
    requires IsScan(f, list) && n <= |list|
    ensures Count(Mcu(f, list, n, mx, my), w) ==
            if w.c in list[..n] && InTile(f, list, w.c, mx, my, w) then 1 else 0
  {
    hide Count, Tile, InTile;
    if n == 0 {
      CountNothing(w);
    } else {
      var c := list[n - 1];
      McuCount(f, list, n - 1, mx, my, w);
      TileCount(f, list, c, mx, my, w);
      CountAppend(Mcu(f, list, n - 1, mx, my), Tile(f, list, c, mx, my), w);
      assert list[..n] == list[..n - 1] + [c];
      assert c !in list[..n - 1];
      if w.c != c {
        OtherTile(f, list, c, mx, my, w);
      }
    }
  }

  /** Block w lies in the first mx MCUs of MCU row my. */
  ghost predicate InRow(f: Frame, list: seq<nat>, mx: nat, my: nat, w: Visit)
    requires IsScan(f, list)
  {
    && w.c in list
    && w.x < mx * Across(f, list, w.c)
    && my * Down(f, list, w.c) <= w.y < (my + 1) * Down(f, list, w.c)
  }

  lemma {:induction false} RowCount(f: Frame, list: seq<nat>, mx: nat, my: nat, w: Visit)
    requires IsScan(f, list)
    ensures Count(Row(f, list, mx, my), w) == if InRow(f, list, mx, my, w) then 1 else 0
  {
    hide Count, Mcu, Across, Down;
    if mx == 0 {
      CountNothing(w);
    } else {
      RowCount(f, list, mx - 1, my, w);
      McuCount(f, list, |list|, mx - 1, my, w);
      assert list[..|list|] == list;
      CountAppend(Row(f, list, mx - 1, my), Mcu(f, list, |list|, mx - 1, my), w);
      if w.c in list {
        Next(mx - 1, Across(f, list, w.c));
      }
    }
  }

  lemma {:induction false} RowsCount(f: Frame, list: seq<nat>, my: nat, w: Visit)
    requires IsScan(f, list)
    ensures Count(Rows(f, list, my), w) ==
            if w.c in list && w.x < McusAcross(f, list) * Across(f, list, w.c) && w.y < my * Down(f, list, w.c) then 1 else 0
  {
    hide Count, Row, Across, Down, McusAcross;
    if my == 0 {
      CountNothing(w);
    } else {
      var row := Row(f, list, McusAcross(f, list), my - 1);
      RowsCount(f, list, my - 1, w);
      RowCount(f, list, McusAcross(f, list), my - 1, w);
      CountAppend(Rows(f, list, my - 1), row, w);
      if w.c in list {
        Next(my - 1, Down(f, list, w.c));
      }
    }
  }

  /** A scan visits each block of its grid exactly once, and no other. */
  lemma EachBlockOnce(f: Frame, list: seq<nat>, w: Visit)
    requires IsScan(f, list)
    ensures Count(ScanOrder(f, list), w) == if InGrid(f, list, w) then 1 else 0
  {
    hide Count, Rows, Across, Down, McusAcross, McusDown;
    RowsCount(f, list, McusDown(f, list), w);
  }

  // ---- in which order ----

  ghost function PlaceIn(list: seq<nat>, c: nat): (i: nat)
    ensures c in list ==> i < |list| && list[i] == c
    ensures c !in list ==> i == |list|
  {
    if list == [] || list[0] == c then 0 else 1 + PlaceIn(list[1..], c)
  }

  /** Block u comes before block w: T.81 section A.2 goes through the MCUs from left to right and from
      top to bottom, within an MCU through the components, and within a component again from left to
      right and from top to bottom. */
  ghost predicate Earlier(f: Frame, list: seq<nat>, u: Visit, w: Visit)
    requires f.Accepted()
  {
    && u.c < |f.h| && w.c < |f.h|
    && var ux, uy, wx, wy := u.x / Across(f, list, u.c), u.y / Down(f, list, u.c), w.x / Across(f, list, w.c), w.y / Down(f, list, w.c);
       || uy < wy
       || (uy == wy && ux < wx)
       || (uy == wy && ux == wx && PlaceIn(list, u.c) < PlaceIn(list, w.c))
       || (uy == wy && ux == wx && u.c == w.c && (u.y < w.y || (u.y == w.y && u.x < w.x)))
  }

  ghost predicate InOrder(f: Frame, list: seq<nat>, s: seq<Visit>)
    requires f.Accepted()
  {
    forall i, j :: 0 <= i < j < |s| ==> Earlier(f, list, s[i], s[j])
  }

  lemma OrderAppend(f: Frame, list: seq<nat>, s: seq<Visit>, t: seq<Visit>)
    requires f.Accepted() && InOrder(f, list, s) && InOrder(f, list, t)
    requires forall u, w :: u in s && w in t ==> Earlier(f, list, u, w)
    ensures InOrder(f, list, s + t)
  {
    hide Earlier;
  }

  lemma Counted(s: seq<Visit>, w: Visit)
    requires w in s
    ensures Count(s, w) > 0
  {
  }

  /** The MCU that a block lies in. */
  lemma McuOfBlock(k: nat, n: nat, x: nat)
    requires n > 0 && k * n <= x < (k + 1) * n
    ensures x / n == k
  {
    Next(k, n);
    DivModUnique(x, n, k, x - k * n);
  }

  lemma TileOrdered(f: Frame, list: seq<nat>, c: nat, mx: nat, my: nat)
    requires f.Accepted() && c < |f.h|
    ensures InOrder(f, list, Tile(f, list, c, mx, my))
  {
    var h, v, t := Across(f, list, c), Down(f, list, c), Tile(f, list, c, mx, my);
    forall i, j | 0 <= i < j < |t|
      ensures Earlier(f, list, t[i], t[j])
    {
      BlockInTile(f, list, c, mx, my, i);
      BlockInTile(f, list, c, mx, my, j);
      RowMajor(i, j, h);
      hide Across, Down, Tile, PlaceIn;
    }
  }

  lemma RowMajor(i: nat, j: nat, h: nat)
    requires i < j && 1 <= h
    ensures i / h < j / h || (i / h == j / h && i % h < j % h)
  {
    var p, q := i / h, j / h;
    assert i == p * h + i % h && j == q * h + j % h;
    Next(q, h);
    if p > q {
      MulMonotone(q + 1, p, h);
    }
  }

  lemma BlockInTile(f: Frame, list: seq<nat>, c: nat, mx: nat, my: nat, o: nat)
    requires f.Accepted() && c < |f.h| && o < |Tile(f, list, c, mx, my)|
    ensures var h, v, w := Across(f, list, c), Down(f, list, c), Tile(f, list, c, mx, my)[o];
            w == Visit(c, mx * h + o % h, my * v + o / h) && w.x / h == mx && w.y / v == my
  {
    var h, v := Across(f, list, c), Down(f, list, c);
    assert o / h < v;
    hide Across, Down;
    Next(mx, h);
    Next(my, v);
    McuOfBlock(mx, h, mx * h + o % h);
    McuOfBlock(my, v, my * v + o / h);
  }

  lemma BelowBlocks(x: nat, m: nat, n: nat)
    requires n > 0 && x < m * n
    ensures x / n < m
  {
    var k := x / n;
    assert x == k * n + x % n;
    if k >= m {
      MulMonotone(m, k, n);
    }
  }

  lemma McuMember(f: Frame, list: seq<nat>, n: nat, mx: nat, my: nat, w: Visit)
    requires IsScan(f, list) && n <= |list| && w in Mcu(f, list, n, mx, my)
    ensures w.c in list[..n] && w.c < |f.h| && w.x / Across(f, list, w.c) == mx && w.y / Down(f, list, w.c) == my
  {
    hide Count, Across, Down, Mcu;
    Counted(Mcu(f, list, n, mx, my), w);
    McuCount(f, list, n, mx, my, w);
    assert w.c in list;
    McuOfBlock(mx, Across(f, list, w.c), w.x);
    McuOfBlock(my, Down(f, list, w.c), w.y);
  }

  lemma {:induction false} PlaceOf(list: seq<nat>, i: nat)
    requires i < |list| && forall a, b :: 0 <= a < b < |list| ==> list[a] != list[b]
    ensures PlaceIn(list, list[i]) == i
  {
    if i > 0 {
      PlaceOf(list[1..], i - 1);
    }
  }

  lemma {:induction false} McuOrdered(f: Frame, list: seq<nat>, n: nat, mx: nat, my: nat)
    requires IsScan(f, list) && n <= |list|
    ensures InOrder(f, list, Mcu(f, list, n, mx, my))
  {
    hide Tile, Across, Down, Frame.Accepted, PlaceIn;
    if n > 0 {
      var c := list[n - 1];
      McuOrdered(f, list, n - 1, mx, my);
      TileOrdered(f, list, c, mx, my);
      forall u, w | u in Mcu(f, list, n - 1, mx, my) && w in Tile(f, list, c, mx, my)
        ensures Earlier(f, list, u, w)
      {
        McuMember(f, list, n - 1, mx, my, u);
        var i :| 0 <= i < n - 1 && list[i] == u.c;
        PlaceOf(list, i);
        PlaceOf(list, n - 1);
        var o :| 0 <= o < |Tile(f, list, c, mx, my)| && Tile(f, list, c, mx, my)[o] == w;
        BlockInTile(f, list, c, mx, my, o);
      }
      OrderAppend(f, list, Mcu(f, list, n - 1, mx, my), Tile(f, list, c, mx, my));
    }
  }

  lemma RowMember(f: Frame, list: seq<nat>, mx: nat, my: nat, w: Visit)
    requires IsScan(f, list) && w in Row(f, list, mx, my)
    ensures w.c < |f.h| && w.x / Across(f, list, w.c) < mx && w.y / Down(f, list, w.c) == my
  {
    hide Count, Across, Down, Row;
    Counted(Row(f, list, mx, my), w);
    RowCount(f, list, mx, my, w);
    BelowBlocks(w.x, mx, Across(f, list, w.c));
    McuOfBlock(my, Down(f, list, w.c), w.y);
  }

  lemma {:induction false} RowOrdered(f: Frame, list: seq<nat>, mx: nat, my: nat)
    requires IsScan(f, list)
    ensures InOrder(f, list, Row(f, list, mx, my))
  {
    hide Mcu, Across, Down, Frame.Accepted, PlaceIn;
    if mx > 0 {
      RowOrdered(f, list, mx - 1, my);
      McuOrdered(f, list, |list|, mx - 1, my);
      forall u, w | u in Row(f, list, mx - 1, my) && w in Mcu(f, list, |list|, mx - 1, my)
        ensures Earlier(f, list, u, w)
      {
        RowMember(f, list, mx - 1, my, u);
        McuMember(f, list, |list|, mx - 1, my, w);
      }
      OrderAppend(f, list, Row(f, list, mx - 1, my), Mcu(f, list, |list|, mx - 1, my));
    }
  }

  lemma RowsMember(f: Frame, list: seq<nat>, my: nat, w: Visit)
    requires IsScan(f, list) && w in Rows(f, list, my)
    ensures w.c < |f.h| && w.y / Down(f, list, w.c) < my
  {
    hide Count, Across, Down, Rows;
    Counted(Rows(f, list, my), w);
    RowsCount(f, list, my, w);
    BelowBlocks(w.y, my, Down(f, list, w.c));
  }

  lemma {:induction false} RowsOrdered(f: Frame, list: seq<nat>, my: nat)
    requires IsScan(f, list)
    ensures InOrder(f, list, Rows(f, list, my))
  {
    hide Row, Across, Down, Frame.Accepted, PlaceIn, McusAcross;
    if my > 0 {
      var n := McusAcross(f, list);
      RowsOrdered(f, list, my - 1);
      RowOrdered(f, list, n, my - 1);
      forall u, w | u in Rows(f, list, my - 1) && w in Row(f, list, n, my - 1)
        ensures Earlier(f, list, u, w)
      {
        RowsMember(f, list, my - 1, u);
        RowMember(f, list, n, my - 1, w);
      }
      OrderAppend(f, list, Rows(f, list, my - 1), Row(f, list, n, my - 1));
    }
  }

  /** A scan goes through its blocks in the order of T.81 section A.2. */
  lemma ScanOrdered(f: Frame, list: seq<nat>)
    requires IsScan(f, list)
    ensures InOrder(f, list, ScanOrder(f, list))
  {
    hide InOrder, Rows;
    RowsOrdered(f, list, McusDown(f, list));
  }

  // ---- the grids lie in the coefficient buffers ----

  /** Rounding up twice is rounding up once. */
  lemma CeilCeil(a: nat, b: nat, c: nat)
    requires b > 0 && c > 0
    ensures c * b > 0 && Ceil(Ceil(a, b), c) == Ceil(a, c * b)
  {
    var n := a + (b - 1) + (c - 1) * b;
    ModAdd(a + (b - 1), c - 1, b);
    Next(c - 1, b);
    DivDiv(n, b, c, c * b);
  }

  lemma CeilBounds(a: nat, b: nat)
    requires b > 0
    ensures a <= Ceil(a, b) * b < a + b
  {
    var n := a + (b - 1);
    assert n == n / b * b + n % b;
  }

  /** MCUs of a size of h units of d samples, in a picture n samples wide. */
  lemma McusCover(n: nat, h: nat, d: nat, m: nat)
    requires 1 <= h && d > 0 && m == Ceil(n, d)
    ensures n * h <= m * h * d < n * h + h * d
  {
    CeilBounds(n, d);
    assert m * h * d == (m * d) * h;
  }

  /** The MCUs of a scan cover all samples of its components, with no column and no row of MCUs to spare:
      component c has its width times h[c] / MaxH samples in a row, and each block has eight. */
  lemma GridCovers(f: Frame, list: seq<nat>, c: nat)
    requires IsScan(f, list) && c in list
    ensures var (m, d) := (McusAcross(f, list), 8 * f.MaxH()); var h := Across(f, list, c);
            f.width * f.h[c] <= m * h * d < f.width * f.h[c] + h * d
    ensures var (m, d) := (McusDown(f, list), 8 * f.MaxV()); var v := Down(f, list, c);
            f.height * f.v[c] <= m * v * d < f.height * f.v[c] + v * d
  {
    if |list| == 1 {
      CeilCeil(f.width * f.h[c], f.MaxH(), 8);
      CeilCeil(f.height * f.v[c], f.MaxV(), 8);
      McusCover(f.width * f.h[c], 1, 8 * f.MaxH(), McusAcross(f, list));
      McusCover(f.height * f.v[c], 1, 8 * f.MaxV(), McusDown(f, list));
    } else {
      CeilCeil(f.width, 8, f.MaxH());
      CeilCeil(f.height, 8, f.MaxV());
      McusCover(f.width, f.h[c], f.MaxH() * 8, McusAcross(f, list));
      McusCover(f.height, f.v[c], f.MaxV() * 8, McusDown(f, list));
    }
  }

  /** The quotient rounded up is the least number of parts that is enough. */
  lemma CeilLeast(a: nat, b: nat, q: nat)
    requires b > 0
    ensures Ceil(a, b) <= q <==> a <= q * b
  {
    var n := a + (b - 1);
    assert n == n / b * b + n % b;
    if q < Ceil(a, b) {
      MulMonotone(q + 1, n / b, b);
      Next(q, b);
    } else {
      MulMonotone(n / b, q, b);
    }
  }

  /** The blocks a component needs in one direction, of those in all MCUs of the frame. */
  lemma BlocksFit(size: nat, s: nat, max: nat)
    requires 1 <= s <= max
    ensures Ceil(Ceil(size * s, max), 8) <= Ceil(size, 8 * max) * s
  {
    var m := Ceil(size, 8 * max);
    CeilLeast(size, 8 * max, m);
    MulMonotone(size, m * (8 * max), s);
    assert m * (8 * max) * s == (m * s * 8) * max by { Shuffle(m, max, s); }
    CeilLeast(size * s, max, m * s * 8);
    CeilLeast(Ceil(size * s, max), 8, m * s);
  }

  lemma Shuffle(m: int, max: int, s: int)
    ensures m * (8 * max) * s == (m * s * 8) * max
  {
    assert m * (8 * max) == 8 * (m * max);
    assert (m * max) * s == (m * s) * max;
  }

  /** Block w is one of the coefficient buffer of its component, which init_progressive opens. */
  ghost predicate InBuffer(f: Frame, w: Visit)
    requires f.Accepted()
  {
    w.c < |f.h| && w.x < FrameMcusAcross(f) * f.h[w.c] && w.y < FrameMcusDown(f) * f.v[w.c]
  }

  /** Every scan stays inside the coefficient buffers, and an interleaved one fills them. */
  lemma GridInBuffer(f: Frame, list: seq<nat>, w: Visit)
    requires IsScan(f, list)
    ensures InGrid(f, list, w) ==> InBuffer(f, w)
    ensures |list| > 1 && w.c in list ==> (InGrid(f, list, w) <==> InBuffer(f, w))
  {
    hide Ceil;
    if w.c in list {
      if |list| == 1 {
        BlocksFit(f.width, f.h[w.c], f.MaxH());
        BlocksFit(f.height, f.v[w.c], f.MaxV());
      } else {
        CeilCeil(f.width, 8, f.MaxH());
        CeilCeil(f.height, 8, f.MaxV());
      }
    }
  }

  /** All components of the frame, in order: what load_next_row goes through. */
  function AllComponents(f: Frame): (list: seq<nat>)
    requires f.Accepted()
    ensures |list| == |f.h| && forall i :: 0 <= i < |list| ==> list[i] == i
  {
    seq(|f.h|, i => i)
  }

  /** What any scan has written is read back: the final pass over all components goes through
      whole coefficient buffers. */
  lemma AllIsReadBack(f: Frame, list: seq<nat>, w: Visit)
    requires IsScan(f, list)
    ensures IsScan(f, AllComponents(f))
    ensures InGrid(f, list, w) ==> InGrid(f, AllComponents(f), w)
    ensures InGrid(f, AllComponents(f), w) <==> InBuffer(f, w)
  {
    hide Ceil;
    var all := AllComponents(f);
    GridInBuffer(f, list, w);
    GridInBuffer(f, all, w);
    if w.c < |f.h| {
      assert all[w.c] == w.c;
      assert w.c in all;
    }
    if |f.h| == 1 {
      WholeFrame(f);
    }
  }

  lemma WholeFrame(f: Frame)
    requires f.Accepted() && |f.h| == 1
    ensures BlocksAcross(f, 0) == FrameMcusAcross(f) && BlocksDown(f, 0) == FrameMcusDown(f)
  {
  }

  // ---- addresses ----

  /** coeff_buf_getp: where a block is in a buffer with blocksAcross blocks of size units. */
  function GetP(blocksAcross: nat, size: nat, x: nat, y: nat): nat {
    x * size + y * (size * blocksAcross)
  }

  lemma GetPIs(across: nat, size: nat, x: nat, y: nat)
    ensures GetP(across, size, x, y) == x * size + y * (size * across)
  {
  }

  /** One block comes before another. */
  lemma BlockBefore(across: nat, size: nat, x: nat, y: nat, x': nat, y': nat)
    requires x < across && (y < y' || (y == y' && x < x'))
    ensures GetP(across, size, x, y) + size <= GetP(across, size, x', y')
  {
    hide GetP;
    var line := size * across;
    GetPIs(across, size, x, y);
    GetPIs(across, size, x', y');
    RowEnd(x, across, size);
    if y < y' {
      Before(y, y', line);
      NotNegative(x', size);
    } else {
      Before(x, x', size);
    }
  }

  lemma NotNegative(a: nat, b: nat)
    ensures a * b >= 0
  {
  }

  /** Blocks of a buffer do not overlap, and lie inside the memory allocated for it. */
  lemma BlocksApart(across: nat, down: nat, size: nat, x: nat, y: nat, x': nat, y': nat)
    requires x < across && y < down && x' < across && y' < down && (x, y) != (x', y')
    ensures GetP(across, size, x, y) + size <= GetP(across, size, x', y') ||
            GetP(across, size, x', y') + size <= GetP(across, size, x, y)
    ensures GetP(across, size, x, y) + size <= size * across * down
  {
    hide GetP;
    GetPIs(across, size, x, y);
    RowEnd(x, across, size);
    RowEnd(y, down, size * across);
    if y < y' || (y == y' && x < x') {
      BlockBefore(across, size, x, y, x', y');
    } else {
      BlockBefore(across, size, x', y', x, y);
    }
  }

  lemma Before(i: nat, j: nat, n: nat)
    requires i < j
    ensures i * n + n <= j * n
  {
    MulMonotone(i + 1, j, n);
    Next(i, n);
  }

  lemma RowEnd(x: nat, across: nat, size: nat)
    requires x < across
    ensures x * size + size <= size * across
  {
    Before(x, across, size);
  }
}
