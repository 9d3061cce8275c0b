/** The tables of the inverse DCT: the zig-zag order, and how much of a block the transform
    has to look at when all coefficients from some zig-zag position on are zero. */
module IdctTables {

  /** g_ZAG: the place in the block of the coefficient at zig-zag position j. */
  function Zag(j: int): (z: int)
    ensures 0 <= z < 64
  {
    if j < 16 then Zag1(j) else if j < 32 then Zag2(j) else if j < 48 then Zag3(j) else Zag4(j)
  }

  function Zag1(j: int): (z: int)
    ensures 0 <= z < 64
  {
    match j
    case 0 => 0 case 1 => 1 case 2 => 8 case 3 => 16 case 4 => 9 case 5 => 2 case 6 => 3 case 7 => 10
    case 8 => 17 case 9 => 24 case 10 => 32 case 11 => 25 case 12 => 18 case 13 => 11 case 14 => 4 case _ => 5
  }

  function Zag2(j: int): (z: int)
    ensures 0 <= z < 64
  {
    match j
    case 16 => 12 case 17 => 19 case 18 => 26 case 19 => 33 case 20 => 40 case 21 => 48 case 22 => 41 case 23 => 34
    case 24 => 27 case 25 => 20 case 26 => 13 case 27 => 6 case 28 => 7 case 29 => 14 case 30 => 21 case _ => 28
  }

  function Zag3(j: int): (z: int)
    ensures 0 <= z < 64
  {
    match j
    case 32 => 35 case 33 => 42 case 34 => 49 case 35 => 56 case 36 => 57 case 37 => 50 case 38 => 43 case 39 => 36
    case 40 => 29 case 41 => 22 case 42 => 15 case 43 => 23 case 44 => 30 case 45 => 37 case 46 => 44 case _ => 51
  }

  function Zag4(j: int): (z: int)
    ensures 0 <= z < 64
  {
    match j
    case 48 => 58 case 49 => 59 case 50 => 52 case 51 => 45 case 52 => 38 case 53 => 31 case 54 => 39 case 55 => 46
    case 56 => 53 case 57 => 60 case 58 => 61 case 59 => 54 case 60 => 47 case 61 => 55 case 62 => 62 case _ => 63
  }

  /** The zig-zag position of a place of the block. */
  function Unzag(z: int): (j: int)
    ensures 0 <= j < 64
  {
    if z < 16 then Unzag1(z) else if z < 32 then Unzag2(z) else if z < 48 then Unzag3(z) else Unzag4(z)
  }

  function Unzag1(z: int): (j: int)
    ensures 0 <= j < 64
  {
    match z
    case 0 => 0 case 1 => 1 case 2 => 5 case 3 => 6 case 4 => 14 case 5 => 15 case 6 => 27 case 7 => 28
    case 8 => 2 case 9 => 4 case 10 => 7 case 11 => 13 case 12 => 16 case 13 => 26 case 14 => 29 case _ => 42
  }

  function Unzag2(z: int): (j: int)
    ensures 0 <= j < 64
  {
    match z
    case 16 => 3 case 17 => 8 case 18 => 12 case 19 => 17 case 20 => 25 case 21 => 30 case 22 => 41 case 23 => 43
    case 24 => 9 case 25 => 11 case 26 => 18 case 27 => 24 case 28 => 31 case 29 => 40 case 30 => 44 case _ => 53
  }

  function Unzag3(z: int): (j: int)
    ensures 0 <= j < 64
  {
    match z
    case 32 => 10 case 33 => 19 case 34 => 23 case 35 => 32 case 36 => 39 case 37 => 45 case 38 => 52 case 39 => 54
    case 40 => 20 case 41 => 22 case 42 => 33 case 43 => 38 case 44 => 46 case 45 => 51 case 46 => 55 case _ => 60
  }

  function Unzag4(z: int): (j: int)
    ensures 0 <= j < 64
  {
    match z
    case 48 => 21 case 49 => 34 case 50 => 37 case 51 => 47 case 52 => 50 case 53 => 56 case 54 => 59 case 55 => 61
    case 56 => 35 case 57 => 36 case 58 => 48 case 59 => 49 case 60 => 57 case 61 => 58 case 62 => 62 case _ => 63
  }

  /** s_idct_row_table: for the first m coefficients, how many columns each row needs. */
  function RowTable(m: int): (counts: seq<int>)
    ensures |counts| == 8 && forall r :: 0 <= r < 8 ==> 0 <= counts[r] <= 8
  {
    if m <= 16 then RowTable1(m) else if m <= 32 then RowTable2(m)
    else if m <= 48 then RowTable3(m) else RowTable4(m)
  }

  function RowTable1(m: int): (counts: seq<int>)
    ensures |counts| == 8 && forall r :: 0 <= r < 8 ==> 0 <= counts[r] <= 8
  {
    match m
    case 1 => [1, 0, 0, 0, 0, 0, 0, 0]
    case 2 => [2, 0, 0, 0, 0, 0, 0, 0]
    case 3 => [2, 1, 0, 0, 0, 0, 0, 0]
    case 4 => [2, 1, 1, 0, 0, 0, 0, 0]
    case 5 => [2, 2, 1, 0, 0, 0, 0, 0]
    case 6 => [3, 2, 1, 0, 0, 0, 0, 0]
    case 7 => [4, 2, 1, 0, 0, 0, 0, 0]
    case 8 => [4, 3, 1, 0, 0, 0, 0, 0]
    case 9 => [4, 3, 2, 0, 0, 0, 0, 0]
    case 10 => [4, 3, 2, 1, 0, 0, 0, 0]
    case 11 => [4, 3, 2, 1, 1, 0, 0, 0]
    case 12 => [4, 3, 2, 2, 1, 0, 0, 0]
    case 13 => [4, 3, 3, 2, 1, 0, 0, 0]
    case 14 => [4, 4, 3, 2, 1, 0, 0, 0]
    case 15 => [5, 4, 3, 2, 1, 0, 0, 0]
    case _ => [6, 4, 3, 2, 1, 0, 0, 0]
  }

  function RowTable2(m: int): (counts: seq<int>)
    ensures |counts| == 8 && forall r :: 0 <= r < 8 ==> 0 <= counts[r] <= 8
  {
    match m
    case 17 => [6, 5, 3, 2, 1, 0, 0, 0]
    case 18 => [6, 5, 4, 2, 1, 0, 0, 0]
    case 19 => [6, 5, 4, 3, 1, 0, 0, 0]
    case 20 => [6, 5, 4, 3, 2, 0, 0, 0]
    case 21 => [6, 5, 4, 3, 2, 1, 0, 0]
    case 22 => [6, 5, 4, 3, 2, 1, 1, 0]
    case 23 => [6, 5, 4, 3, 2, 2, 1, 0]
    case 24 => [6, 5, 4, 3, 3, 2, 1, 0]
    case 25 => [6, 5, 4, 4, 3, 2, 1, 0]
    case 26 => [6, 5, 5, 4, 3, 2, 1, 0]
    case 27 => [6, 6, 5, 4, 3, 2, 1, 0]
    case 28 => [7, 6, 5, 4, 3, 2, 1, 0]
    case 29 => [8, 6, 5, 4, 3, 2, 1, 0]
    case 30 => [8, 7, 5, 4, 3, 2, 1, 0]
    case 31 => [8, 7, 6, 4, 3, 2, 1, 0]
    case _ => [8, 7, 6, 5, 3, 2, 1, 0]
  }

  function RowTable3(m: int): (counts: seq<int>)
    ensures |counts| == 8 && forall r :: 0 <= r < 8 ==> 0 <= counts[r] <= 8
  {
    match m
    case 33 => [8, 7, 6, 5, 4, 2, 1, 0]
    case 34 => [8, 7, 6, 5, 4, 3, 1, 0]
    case 35 => [8, 7, 6, 5, 4, 3, 2, 0]
    case 36 => [8, 7, 6, 5, 4, 3, 2, 1]
    case 37 => [8, 7, 6, 5, 4, 3, 2, 2]
    case 38 => [8, 7, 6, 5, 4, 3, 3, 2]
    case 39 => [8, 7, 6, 5, 4, 4, 3, 2]
    case 40 => [8, 7, 6, 5, 5, 4, 3, 2]
    case 41 => [8, 7, 6, 6, 5, 4, 3, 2]
    case 42 => [8, 7, 7, 6, 5, 4, 3, 2]
    case 43 => [8, 8, 7, 6, 5, 4, 3, 2]
    case 44 => [8, 8, 8, 6, 5, 4, 3, 2]
    case 45 => [8, 8, 8, 7, 5, 4, 3, 2]
    case 46 => [8, 8, 8, 7, 6, 4, 3, 2]
    case 47 => [8, 8, 8, 7, 6, 5, 3, 2]
    case _ => [8, 8, 8, 7, 6, 5, 4, 2]
  }

  function RowTable4(m: int): (counts: seq<int>)
    ensures |counts| == 8 && forall r :: 0 <= r < 8 ==> 0 <= counts[r] <= 8
  {
    match m
    case 49 => [8, 8, 8, 7, 6, 5, 4, 3]
    case 50 => [8, 8, 8, 7, 6, 5, 4, 4]
    case 51 => [8, 8, 8, 7, 6, 5, 5, 4]
    case 52 => [8, 8, 8, 7, 6, 6, 5, 4]
    case 53 => [8, 8, 8, 7, 7, 6, 5, 4]
    case 54 => [8, 8, 8, 8, 7, 6, 5, 4]
    case 55 => [8, 8, 8, 8, 8, 6, 5, 4]
    case 56 => [8, 8, 8, 8, 8, 7, 5, 4]
    case 57 => [8, 8, 8, 8, 8, 7, 6, 4]
    case 58 => [8, 8, 8, 8, 8, 7, 6, 5]
    case 59 => [8, 8, 8, 8, 8, 7, 6, 6]
    case 60 => [8, 8, 8, 8, 8, 7, 7, 6]
    case 61 => [8, 8, 8, 8, 8, 8, 7, 6]
    case 62 => [8, 8, 8, 8, 8, 8, 8, 6]
    case 63 => [8, 8, 8, 8, 8, 8, 8, 7]
    case _ => [8, 8, 8, 8, 8, 8, 8, 8]
  }

  /** s_idct_col_table: for the first m coefficients, how many rows the columns need. */
  function ColTable(m: int): (n: int)
    ensures 1 <= n <= 8
  {
    if m <= 2 then 1
    else if m <= 3 then 2
    else if m <= 9 then 3
    else if m <= 10 then 4
    else if m <= 20 then 5
    else if m <= 21 then 6
    else if m <= 35 then 7
    else 8
  }

  /** The zig-zag order visits every place exactly once. */
  lemma ZagUnzag(i: int)
    requires 0 <= i < 64
    ensures Zag(Unzag(i)) == i && Unzag(Zag(i)) == i
  {
    hide Zag, Unzag;
    if i < 16 {
      ZagUnzag1(i);
    } else if i < 32 {
      ZagUnzag2(i);
    } else if i < 48 {
      ZagUnzag3(i);
    } else {
      ZagUnzag4(i);
    }
  }

  lemma ZagUnzag1(i: int)
    requires 0 <= i < 16
    ensures Zag(Unzag(i)) == i && Unzag(Zag(i)) == i
  {
  }

  lemma ZagUnzag2(i: int)
    requires 16 <= i < 32
    ensures Zag(Unzag(i)) == i && Unzag(Zag(i)) == i
  {
  }

  lemma ZagUnzag3(i: int)
    requires 32 <= i < 48
    ensures Zag(Unzag(i)) == i && Unzag(Zag(i)) == i
  {
  }

  lemma ZagUnzag4(i: int)
    requires 48 <= i < 64
    ensures Zag(Unzag(i)) == i && Unzag(Zag(i)) == i
  {
  }

  /** The next place on a walk along the antidiagonals: up and to the right where row and column add up
      to an even number, down and to the left otherwise, and along the border where that would leave it. */
  function NextPlace(z: int): int {
    var r, c := z / 8, z % 8;
    if (r + c) % 2 == 0 then (if c == 7 then z + 8 else if r == 0 then z + 1 else z - 7)
    else (if r == 7 then z + 1 else if c == 0 then z + 8 else z + 7)
  }

  /** The zig-zag order is that of T.81 figure A.6: it begins in the corner and walks along the antidiagonals. */
  lemma ZagWalks(j: int)
    requires 0 <= j < 63
    ensures Zag(0) == 0 && Zag(j + 1) == NextPlace(Zag(j))
  {
    assert Zag(0) == 0;
    if j < 16 {
      ZagWalks1(j);
    } else if j < 32 {
      ZagWalks2(j);
    } else if j < 48 {
      ZagWalks3(j);
    } else {
      ZagWalks4(j);
    }
  }

  lemma ZagWalks1(j: int)
    requires 0 <= j < 16
    ensures Zag(j + 1) == NextPlace(Zag(j))
  {
  }

  lemma ZagWalks2(j: int)
    requires 16 <= j < 32
    ensures Zag(j + 1) == NextPlace(Zag(j))
  {
  }

  lemma ZagWalks3(j: int)
    requires 32 <= j < 48
    ensures Zag(j + 1) == NextPlace(Zag(j))
  {
  }

  lemma ZagWalks4(j: int)
    requires 48 <= j < 63
    ensures Zag(j + 1) == NextPlace(Zag(j))
  {
  }

  /** One more coefficient: its row is widened to take it in, and no row shrinks. */
  ghost predicate Widens(m: int) {
    && (forall r :: 0 <= r < 8 ==> RowTable(m - 1)[r] <= RowTable(m)[r])
    && Zag(m - 1) % 8 < RowTable(m)[Zag(m - 1) / 8]
  }

  lemma Widens1(m: int)
    requires 2 <= m < 9
    ensures Widens(m)
  {
  }

  lemma Widens2(m: int)
    requires 9 <= m < 17
    ensures Widens(m)
  {
  }

  lemma Widens3(m: int)
    requires 17 <= m < 25
    ensures Widens(m)
  {
  }

  lemma Widens4(m: int)
    requires 25 <= m < 33
    ensures Widens(m)
  {
  }

  lemma Widens5(m: int)
    requires 33 <= m < 41
    ensures Widens(m)
  {
  }

  lemma Widens6(m: int)
    requires 41 <= m < 49
    ensures Widens(m)
  {
  }

  lemma Widens7(m: int)
    requires 49 <= m < 57
    ensures Widens(m)
  {
  }

  lemma Widens8(m: int)
    requires 57 <= m < 65
    ensures Widens(m)
  {
  }

  lemma AllWiden(m: int)
    requires 2 <= m <= 64
    ensures Widens(m)
  {
    hide Widens;
    if m < 9 {
      Widens1(m);
    } else if m < 17 {
      Widens2(m);
    } else if m < 25 {
      Widens3(m);
    } else if m < 33 {
      Widens4(m);
    } else if m < 41 {
      Widens5(m);
    } else if m < 49 {
      Widens6(m);
    } else if m < 57 {
      Widens7(m);
    } else {
      Widens8(m);
    }
  }

  /** The row table is right: the first m coefficients lie within the columns it gives. */
  lemma {:induction false} RowTableCovers(m: int, j: int)
    requires 1 <= m <= 64 && 0 <= j < m
    ensures Zag(j) % 8 < RowTable(m)[Zag(j) / 8]
  {
    hide Zag, RowTable;
    if m == 1 {
      assert Zag(0) == 0 && RowTable(1)[0] == 1 by { FirstRow(); }
    } else {
      AllWiden(m);
      if j < m - 1 {
        RowTableCovers(m - 1, j);
      }
    }
  }

  lemma FirstRow()
    ensures Zag(0) == 0 && RowTable(1)[0] == 1
  {
  }

  /** The rows that need columns are the first ones, as many as the column table says. */
  lemma ColTableCovers(m: int, r: int)
    requires 2 <= m <= 64 && 0 <= r < 8
    ensures RowTable(m)[r] > 0 <==> r < ColTable(m)
  {
    hide RowTable, ColTable;
    if m < 17 {
      ColTableCovers1(m, r);
    } else if m < 33 {
      ColTableCovers2(m, r);
    } else if m < 49 {
      ColTableCovers3(m, r);
    } else {
      ColTableCovers4(m, r);
    }
  }

  lemma ColTableCovers1(m: int, r: int)
    requires 2 <= m < 17 && 0 <= r < 8
    ensures RowTable(m)[r] > 0 <==> r < ColTable(m)
  {
  }

  lemma ColTableCovers2(m: int, r: int)
    requires 17 <= m < 33 && 0 <= r < 8
    ensures RowTable(m)[r] > 0 <==> r < ColTable(m)
  {
  }

  lemma ColTableCovers3(m: int, r: int)
    requires 33 <= m < 49 && 0 <= r < 8
    ensures RowTable(m)[r] > 0 <==> r < ColTable(m)
  {
  }

  lemma ColTableCovers4(m: int, r: int)
    requires 49 <= m < 65 && 0 <= r < 8
    ensures RowTable(m)[r] > 0 <==> r < ColTable(m)
  {
  }
}
