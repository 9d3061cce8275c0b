/** The inverse DCT of jpgd.cpp, pruned by table lookup, against the transform of whole blocks. */
module Idcts {
  import opened IdctTables

  // ---- the unpruned transform ----

  /** One output of the eight-point inverse DCT, scaled by 2^13. */
  function Transform(s: seq<int>, k: int): int
    requires |s| == 8
  {
    match k
    case 0 => 8192 * s[0] + 11363 * s[1] + 10703 * s[2] + 9633 * s[3] + 8192 * s[4] + 6437 * s[5] + 4433 * s[6] + 2260 * s[7]
    case 1 => 8192 * s[0] + 9633 * s[1] + 4433 * s[2] - 2259 * s[3] - 8192 * s[4] - 11362 * s[5] - 10704 * s[6] - 6436 * s[7]
    case 2 => 8192 * s[0] + 6437 * s[1] - 4433 * s[2] - 11362 * s[3] - 8192 * s[4] + 2261 * s[5] + 10704 * s[6] + 9633 * s[7]
    case 3 => 8192 * s[0] + 2260 * s[1] - 10703 * s[2] - 6436 * s[3] + 8192 * s[4] + 9633 * s[5] - 4433 * s[6] - 11363 * s[7]
    case 4 => 8192 * s[0] - 2260 * s[1] - 10703 * s[2] + 6436 * s[3] + 8192 * s[4] - 9633 * s[5] - 4433 * s[6] + 11363 * s[7]
    case 5 => 8192 * s[0] - 6437 * s[1] - 4433 * s[2] + 11362 * s[3] - 8192 * s[4] - 2261 * s[5] + 10704 * s[6] - 9633 * s[7]
    case 6 => 8192 * s[0] - 9633 * s[1] + 4433 * s[2] + 2259 * s[3] - 8192 * s[4] + 11362 * s[5] - 10704 * s[6] + 6436 * s[7]
    case _ => 8192 * s[0] - 11363 * s[1] + 10703 * s[2] - 9633 * s[3] + 8192 * s[4] - 6437 * s[5] + 4433 * s[6] - 2260 * s[7]
  }

  /** Its coefficients. */
  function Coefficients(k: int): (c: seq<int>)
    ensures |c| == 8
  {
    match k
    case 0 => [8192, 11363, 10703, 9633, 8192, 6437, 4433, 2260]
    case 1 => [8192, 9633, 4433, -2259, -8192, -11362, -10704, -6436]
    case 2 => [8192, 6437, -4433, -11362, -8192, 2261, 10704, 9633]
    case 3 => [8192, 2260, -10703, -6436, 8192, 9633, -4433, -11363]
    case 4 => [8192, -2260, -10703, 6436, 8192, -9633, -4433, 11363]
    case 5 => [8192, -6437, -4433, 11362, -8192, -2261, 10704, -9633]
    case 6 => [8192, -9633, 4433, 2259, -8192, 11362, -10704, 6436]
    case _ => [8192, -11363, 10703, -9633, 8192, -6437, 4433, -2260]
  }

  /** 8192 * sqrt(2) * cos(j * pi / 16), rounded, within a quarter of the circle. */
  function Cosine(j: int): int {
    match j
    case 0 => 11585 case 1 => 11363 case 2 => 10703 case 3 => 9633
    case 4 => 8192 case 5 => 6436 case 6 => 4433 case 7 => 2260 case _ => 0
  }

  /** The same for any multiple of pi / 16. */
  function CosineAt(j: int): int {
    var a := j % 32;
    if a <= 8 then Cosine(a) else if a <= 16 then -Cosine(16 - a) else if a <= 24 then -Cosine(a - 16) else Cosine(32 - a)
  }

  /** That these are cosines: twice the square of one is the one of twice the angle plus one, up to
      the rounding of the table. */
  lemma DoubleAngle(j: nat)
    requires j <= 8
    ensures -11585 <= Cosine(0) * Cosine(0) - 2 * 8192 * 8192 <= 11585 && Cosine(0) > 0 && Cosine(j) >= 0
    ensures -3 * 11585 <= 2 * (Cosine(j) * Cosine(j)) - Cosine(0) * (Cosine(0) + CosineAt(2 * j)) <= 3 * 11585
  {
    match j
    case 0 => case 1 => case 2 => case 3 => case 4 => case 5 => case 6 => case 7 => case 8 =>
  }

  /** The coefficient of the inverse DCT in T.81 section A.3.3, scaled by 2^13 * sqrt(8); the one of
      the mean value has the factor 1 / sqrt(2). */
  function Basis(i: nat, k: nat): int {
    if i == 0 then 8192 else CosineAt((2 * k + 1) * i)
  }

  lemma TransformCoefficients(s: seq<int>, k: int)
    requires |s| == 8 && 0 <= k < 8
    ensures var c := Coefficients(k);
            Transform(s, k) == c[0] * s[0] + c[1] * s[1] + c[2] * s[2] + c[3] * s[3]
                               + c[4] * s[4] + c[5] * s[5] + c[6] * s[6] + c[7] * s[7]
  {
  }

  predicate Close(i: nat, k: nat)
    requires i < 8
  {
    -1 <= Coefficients(k)[i] - Basis(i, k) <= 1
  }

  /** The fixed-point transform is the inverse DCT, with each coefficient off by at most one
      unit of 2^-13 from the cosine value rounded to such units. */
  lemma TransformIsDct(i: nat, k: nat)
    requires i < 8 && k < 8
    ensures -1 <= Coefficients(k)[i] - Basis(i, k) <= 1
  {
    hide Coefficients, Basis, Close;
    RowClose(k);
    CloseIs(i, k);
  }

  lemma CloseIs(i: nat, k: nat)
    requires i < 8 && Close(i, k)
    ensures -1 <= Coefficients(k)[i] - Basis(i, k) <= 1
  {
  }

  lemma RowClose(k: nat)
    requires k < 8
    ensures forall i: nat :: i < 8 ==> Close(i, k)
  {
    hide Close;
    match k
    case 0 => DctRow0();
    case 1 => DctRow1();
    case 2 => DctRow2();
    case 3 => DctRow3();
    case 4 => DctRow4();
    case 5 => DctRow5();
    case 6 => DctRow6();
    case 7 => DctRow7();
  }

  /** The cosines of one output. */
  predicate Cosines(k: nat, c: seq<int>) {
    && |c| == 8 && CosineAt(2 * k + 1) == c[1] && CosineAt((2 * k + 1) * 2) == c[2] && CosineAt((2 * k + 1) * 3) == c[3]
    && CosineAt((2 * k + 1) * 4) == c[4] && CosineAt((2 * k + 1) * 5) == c[5] && CosineAt((2 * k + 1) * 6) == c[6]
    && CosineAt((2 * k + 1) * 7) == c[7]
  }

  lemma AllClose(k: nat, c: seq<int>)
    requires Cosines(k, c) && forall i :: 1 <= i < 8 ==> -1 <= Coefficients(k)[i] - c[i] <= 1
    ensures forall i: nat :: i < 8 ==> Close(i, k)
  {
    hide CosineAt;
    var d := Coefficients(k);
    assert d[0] == 8192;
    hide Coefficients;
    forall i: nat | i < 8
      ensures Close(i, k)
    {
      match i
      case 0 => case 1 => case 2 => case 3 => case 4 => case 5 => case 6 => case 7 =>
    }
  }

  lemma DctRow0()
    ensures forall i: nat :: i < 8 ==> Close(i, 0)
  {
    var c := [8192, 11363, 10703, 9633, 8192, 6436, 4433, 2260];
    assert Cosines(0, c);
    hide CosineAt, Cosines;
    AllClose(0, c);
  }

  lemma DctRow1()
    ensures forall i: nat :: i < 8 ==> Close(i, 1)
  {
    var c := [8192, 9633, 4433, -2260, -8192, -11363, -10703, -6436];
    assert Cosines(1, c);
    hide CosineAt, Cosines;
    AllClose(1, c);
  }

  lemma DctRow2()
    ensures forall i: nat :: i < 8 ==> Close(i, 2)
  {
    var c := [8192, 6436, -4433, -11363, -8192, 2260, 10703, 9633];
    assert Cosines(2, c);
    hide CosineAt, Cosines;
    AllClose(2, c);
  }

  lemma DctRow3()
    ensures forall i: nat :: i < 8 ==> Close(i, 3)
  {
    var c := [8192, 2260, -10703, -6436, 8192, 9633, -4433, -11363];
    assert Cosines(3, c);
    hide CosineAt, Cosines;
    AllClose(3, c);
  }

  lemma DctRow4()
    ensures forall i: nat :: i < 8 ==> Close(i, 4)
  {
    var c := [8192, -2260, -10703, 6436, 8192, -9633, -4433, 11363];
    assert Cosines(4, c);
    hide CosineAt, Cosines;
    AllClose(4, c);
  }

  lemma DctRow5()
    ensures forall i: nat :: i < 8 ==> Close(i, 5)
  {
    var c := [8192, -6436, -4433, 11363, -8192, -2260, 10703, -9633];
    assert Cosines(5, c);
    hide CosineAt, Cosines;
    AllClose(5, c);
  }

  lemma DctRow6()
    ensures forall i: nat :: i < 8 ==> Close(i, 6)
  {
    var c := [8192, -9633, 4433, 2260, -8192, 11363, -10703, 6436];
    assert Cosines(6, c);
    hide CosineAt, Cosines;
    AllClose(6, c);
  }

  lemma DctRow7()
    ensures forall i: nat :: i < 8 ==> Close(i, 7)
  {
    var c := [8192, -11363, 10703, -9633, 8192, -6436, 4433, -2260];
    assert Cosines(7, c);
    hide CosineAt, Cosines;
    AllClose(7, c);
  }

  /** DESCALE: divides by 2^n, rounding to nearest. */
  function Descale(x: int, half: int): int
    requires half > 0
  {
    (x + half) / (2 * half)
  }

  /** The CLAMP macro: samples are eight bits. */
  function Clamp(i: int): int {
    if i < 0 then 0 else if i > 255 then 255 else i
  }

  /** The row pass: sample k of row s, scaled by 2^2. */
  function RowPass(s: seq<int>, k: int): int
    requires |s| == 8
  {
    Descale(Transform(s, k), 1024)
  }

  /** The column pass: the sample of row k of column s, with the level shift. */
  function ColPass(s: seq<int>, k: int): int
    requires |s| == 8
  {
    Clamp(Descale(Transform(s, k) + 128 * 0x4_0000, 0x2_0000))
  }

  function Row(b: seq<int>, r: int): (s: seq<int>)
    requires |b| == 64 && 0 <= r < 8
    ensures |s| == 8
  {
    b[8 * r..8 * r + 8]
  }

  /** What the row pass leaves in column x, of all eight rows. */
  function Column(b: seq<int>, x: int): (s: seq<int>)
    requires |b| == 64
    ensures |s| == 8
  {
    seq(8, r requires 0 <= r < 8 => RowPass(Row(b, r), x))
  }

  /** The sample in row y and column x of the whole transform: all rows, then all columns. */
  function Sample(b: seq<int>, y: int, x: int): int
    requires |b| == 64
  {
    ColPass(Column(b, x), y)
  }

  /** All coefficients from zig-zag position m on are zero. */
  ghost predicate ZeroFrom(b: seq<int>, m: int)
    requires |b| == 64
  {
    forall j :: m <= j < 64 && 0 <= j ==> b[Zag(j)] == 0
  }

  /** Beyond the columns of the row table there are only zeros. */
  lemma ZeroBeyondTable(b: seq<int>, m: int, r: int, c: int)
    requires |b| == 64 && 1 <= m <= 64 && ZeroFrom(b, m)
    requires 0 <= r < 8 && RowTable(m)[r] <= c < 8
    ensures Row(b, r)[c] == 0
  {
    hide Zag, Unzag, RowTable;
    var j := Unzag(8 * r + c);
    ZagUnzag(8 * r + c);
    if j < m {
      RowTableCovers(m, j);
    }
  }

  // ---- the transform as the source computes it ----

  /** The eight-point transform shared by Row and Col. */
  method Butterfly(s: seq<int>) returns (o: seq<int>)
    requires |s| == 8
    ensures |o| == 8 && forall k :: 0 <= k < 8 ==> o[k] == Transform(s, k)
  {
    var z2, z3 := s[2], s[6];

    var z1 := (z2 + z3) * 4433;
    var tmp2 := z1 + z3 * -15137;
    var tmp3 := z1 + z2 * 6270;

    var tmp0 := (s[0] + s[4]) * 0x2000;
    var tmp1 := (s[0] - s[4]) * 0x2000;

    var tmp10, tmp13, tmp11, tmp12 := tmp0 + tmp3, tmp0 - tmp3, tmp1 + tmp2, tmp1 - tmp2;

    var atmp0, atmp1, atmp2, atmp3 := s[7], s[5], s[3], s[1];

    var bz1, bz2, bz3, bz4 := atmp0 + atmp3, atmp1 + atmp2, atmp0 + atmp2, atmp1 + atmp3;
    var bz5 := (bz3 + bz4) * 9633;

    var az1 := bz1 * -7373;
    var az2 := bz2 * -20995;
    var az3 := bz3 * -16069 + bz5;
    var az4 := bz4 * -3196 + bz5;

    var btmp0 := atmp0 * 2446 + az1 + az3;
    var btmp1 := atmp1 * 16819 + az2 + az4;
    var btmp2 := atmp2 * 25172 + az2 + az3;
    var btmp3 := atmp3 * 12299 + az1 + az4;

    o := [tmp10 + btmp3, tmp11 + btmp2, tmp12 + btmp1, tmp13 + btmp0,
          tmp13 - btmp0, tmp12 - btmp1, tmp11 - btmp2, tmp10 - btmp3];
  }

  /** A row with only a DC coefficient: Row<1>. */
  lemma RowOfDc(s: seq<int>, k: int)
    requires |s| == 8 && 0 <= k < 8 && forall c :: 1 <= c < 8 ==> s[c] == 0
    ensures RowPass(s, k) == s[0] * 4
  {
    TransformOfDc(s, k);
  }

  lemma TransformOfDc(s: seq<int>, k: int)
    requires |s| == 8 && 0 <= k < 8 && forall c :: 1 <= c < 8 ==> s[c] == 0
    ensures Transform(s, k) == 8192 * s[0]
  {
  }

  /** A column with only its first row: Col<1>. */
  lemma ColOfDc(s: seq<int>, k: int)
    requires |s| == 8 && 0 <= k < 8 && forall r :: 1 <= r < 8 ==> s[r] == 0
    ensures ColPass(s, k) == Clamp(Descale(s[0] + 128 * 32, 16))
  {
    hide Transform;
    TransformOfDc(s, k);
    var x := s[0] + 128 * 32 + 16;
    assert 8192 * s[0] + 128 * 0x4_0000 + 0x2_0000 == 8192 * x;
  }

  /** What the row pass makes of a row. */
  function RowOut(s: seq<int>): (o: seq<int>)
    requires |s| == 8
    ensures |o| == 8
  {
    seq(8, k => RowPass(s, k))
  }

  /** ACCESS_COL and ACCESS_ROW: what lies beyond the first n counts as zero. */
  function Access(n: int, s: seq<int>): (r: seq<int>)
    requires |s| == 8
    ensures |r| == 8
  {
    seq(8, c requires 0 <= c < 8 => if c < n then s[c] else 0)
  }

  lemma AccessAll(n: int, s: seq<int>)
    requires |s| == 8 && 0 <= n && forall c :: n <= c < 8 ==> s[c] == 0
    ensures Access(n, s) == s
  {
  }

  /** Stores one row of the row pass. */
  method StoreRow(temp: array<int>, to: nat, o: seq<int>)
    requires to + 8 <= temp.Length && |o| == 8
    modifies temp
    ensures forall j :: 0 <= j < temp.Length ==> temp[j] == if to <= j < to + 8 then o[j - to] else old(temp[j])
  {
    temp[to] := o[0];
    temp[to + 7] := o[7];
    temp[to + 1] := o[1];
    temp[to + 6] := o[6];
    temp[to + 2] := o[2];
    temp[to + 5] := o[5];
    temp[to + 3] := o[3];
    temp[to + 4] := o[4];
  }

  /** Row<n>: one row of the row pass, of which only the first n columns are read. */
  method RowIdct(n: int, temp: array<int>, to: nat, src: array<int>, so: nat)
    requires 0 <= n <= 8 && temp != src && to + 8 <= temp.Length && so + 8 <= src.Length
    modifies temp
    ensures forall j :: 0 <= j < temp.Length && !(to <= j < to + 8) ==> temp[j] == old(temp[j])
    ensures n > 0 ==> temp[to..to + 8] == RowOut(Access(n, src[so..so + 8]))
  {
    hide RowPass;
    ghost var row := Access(n, src[so..so + 8]);
    if n == 0 {
      return;
    }
    var o: seq<int>;
    if n == 1 {
      forall k | 0 <= k < 8
        ensures RowOut(row)[k] == src[so] * 4
      {
        RowOfDc(row, k);
      }
      var dcval := src[so] * 4;
      o := seq(8, _ => dcval);
    } else {
      var b := Butterfly(Access(n, src[so..so + 8]));
      PassesOf(row, b);
      o := seq(8, k requires 0 <= k < 8 => Descale(b[k], 1024));
    }
    StoreRow(temp, to, o);
  }

  lemma PassesOf(s: seq<int>, o: seq<int>)
    requires |s| == |o| == 8 && forall k :: 0 <= k < 8 ==> o[k] == Transform(s, k)
    ensures forall k :: 0 <= k < 8 ==> Descale(o[k], 1024) == RowPass(s, k)
    ensures forall k :: 0 <= k < 8 ==> Clamp(Descale(o[k] + 128 * 0x4_0000, 0x2_0000)) == ColPass(s, k)
  {
    hide Transform;
  }

  /** Stores one column of samples. */
  method StoreColumn(dst: array<int>, at: nat, x: nat, o: seq<int>)
    requires at + 64 <= dst.Length && x < 8 && |o| == 8
    modifies dst
    ensures forall j :: 0 <= j < dst.Length ==>
              dst[j] == if at <= j < at + 64 && (j - at) % 8 == x then o[(j - at) / 8] else old(dst[j])
  {
    var p := at + x;
    dst[p] := o[0];
    dst[p + 56] := o[7];
    dst[p + 8] := o[1];
    dst[p + 48] := o[6];
    dst[p + 16] := o[2];
    dst[p + 40] := o[5];
    dst[p + 24] := o[3];
    dst[p + 32] := o[4];
  }

  /** Col<n>: one column of the column pass, of which only the first n rows are read. */
  method ColIdct(n: int, dst: array<int>, at: nat, temp: array<int>, x: nat)
    requires 1 <= n <= 8 && temp != dst && at + 64 <= dst.Length && x < 8 && temp.Length == 64
    modifies dst
    ensures forall j :: 0 <= j < dst.Length ==>
              dst[j] == if at <= j < at + 64 && (j - at) % 8 == x
                        then ColPass(Access(n, Strided(temp[..], x)), (j - at) / 8) else old(dst[j])
  {
    hide ColPass;
    var s := [temp[x], if n > 1 then temp[x + 8] else 0, if n > 2 then temp[x + 16] else 0,
              if n > 3 then temp[x + 24] else 0, if n > 4 then temp[x + 32] else 0,
              if n > 5 then temp[x + 40] else 0, if n > 6 then temp[x + 48] else 0,
              if n > 7 then temp[x + 56] else 0];
    assert s == Access(n, Strided(temp[..], x));
    var o: seq<int>;
    if n == 1 {
      var clamped := Clamp(Descale(s[0] + 128 * 32, 16));
      forall k | 0 <= k < 8
        ensures ColPass(s, k) == clamped
      {
        ColOfDc(s, k);
      }
      o := seq(8, _ => clamped);
    } else {
      var b := Butterfly(s);
      PassesOf(s, b);
      o := seq(8, k requires 0 <= k < 8 => Clamp(Descale(b[k] + 128 * 0x4_0000, 0x2_0000)));
    }
    StoreColumn(dst, at, x, o);
  }

  /** Column x of an eight by eight array. */
  function Strided(t: seq<int>, x: nat): (s: seq<int>)
    requires |t| == 64 && x < 8
    ensures |s| == 8
  {
    [t[x], t[x + 8], t[x + 16], t[x + 24], t[x + 32], t[x + 40], t[x + 48], t[x + 56]]
  }

  /** All the samples of the whole transform. */
  function Samples(b: seq<int>): (s: seq<int>)
    requires |b| == 64
    ensures |s| == 64
  {
    seq(64, i => Sample(b, i / 8, i % 8))
  }

  // ---- what the samples are ----

  /** The inner sum, over the columns u of row v. */
  function RowSum(b: seq<int>, v: nat, x: nat): int
    requires |b| == 64 && v < 8 && x < 8
  {
    var c := Coefficients(x);
    c[0] * b[8 * v] + c[1] * b[8 * v + 1] + c[2] * b[8 * v + 2] + c[3] * b[8 * v + 3]
    + c[4] * b[8 * v + 4] + c[5] * b[8 * v + 5] + c[6] * b[8 * v + 6] + c[7] * b[8 * v + 7]
  }

  /** The double sum of T.81 section A.3.3 for the sample in row y and column x, scaled by 2^29: both
      one-dimensional transforms have their coefficients scaled by 2^13 * sqrt(8). */
  function DoubleSum(b: seq<int>, y: nat, x: nat): int
    requires |b| == 64 && y < 8 && x < 8
  {
    var c := Coefficients(y);
    c[0] * RowSum(b, 0, x) + c[1] * RowSum(b, 1, x) + c[2] * RowSum(b, 2, x) + c[3] * RowSum(b, 3, x)
    + c[4] * RowSum(b, 4, x) + c[5] * RowSum(b, 5, x) + c[6] * RowSum(b, 6, x) + c[7] * RowSum(b, 7, x)
  }

  /** A sample before clamping: the double sum with the level shift, at most 1/2 + 1/8 off. */
  ghost predicate Rounds(b: seq<int>, y: nat, x: nat, t: int)
    requires |b| == 64 && y < 8 && x < 8
  {
    -0x1400_0000 <= 0x2000_0000 * (t - 128) - DoubleSum(b, y, x) <= 0x1400_0000
  }

  /** The sample in row y and column x of an eight by eight array is that, clamped to eight bits. */
  ghost predicate SampleNear(b: seq<int>, samples: seq<int>, y: nat, x: nat)
    requires |b| == |samples| == 64 && y < 8 && x < 8
  {
    exists t: int :: Rounds(b, y, x, t) && samples[8 * y + x] == if t < 0 then 0 else if t > 255 then 255 else t
  }

  ghost predicate AllNear(b: seq<int>, samples: seq<int>)
    requires |b| == |samples| == 64
  {
    forall y: nat, x: nat :: y < 8 && x < 8 ==> SampleNear(b, samples, y, x)
  }

  lemma DescaleNear(x: int, half: int)
    requires half > 0
    ensures -half <= 2 * half * Descale(x, half) - x <= half
  {
    var q, r := (x + half) / (2 * half), (x + half) % (2 * half);
    assert x + half == q * (2 * half) + r;
  }

  lemma RowTransform(b: seq<int>, v: nat, x: nat)
    requires |b| == 64 && v < 8 && x < 8
    ensures Transform(Row(b, v), x) == RowSum(b, v, x)
  {
    TransformCoefficients(Row(b, v), x);
    hide Transform, Coefficients;
  }

  /** Rounding errors of the row pass add up to at most an eighth in the end. */
  lemma ErrorsAddUp(y: nat, e: seq<int>)
    requires y < 8 && |e| == 8 && forall v :: 0 <= v < 8 ==> -1024 <= e[v] <= 1024
    ensures -0x400_0000 <= Transform(e, y) <= 0x400_0000
  {
  }

  /** Transforms are linear. */
  lemma Combined(y: nat, s: seq<int>, r: seq<int>, e: seq<int>)
    requires y < 8 && |s| == |r| == |e| == 8 && forall v :: 0 <= v < 8 ==> e[v] == 2048 * s[v] - r[v]
    ensures Transform(e, y) == 2048 * Transform(s, y) - Transform(r, y)
  {
    if y < 4 {
      CombinedUpper(y, s, r, e);
    } else {
      CombinedLower(y, s, r, e);
    }
  }

  lemma CombinedUpper(y: nat, s: seq<int>, r: seq<int>, e: seq<int>)
    requires y < 4 && |s| == |r| == |e| == 8 && forall v :: 0 <= v < 8 ==> e[v] == 2048 * s[v] - r[v]
    ensures Transform(e, y) == 2048 * Transform(s, y) - Transform(r, y)
  {
  }

  lemma CombinedLower(y: nat, s: seq<int>, r: seq<int>, e: seq<int>)
    requires 4 <= y < 8 && |s| == |r| == |e| == 8 && forall v :: 0 <= v < 8 ==> e[v] == 2048 * s[v] - r[v]
    ensures Transform(e, y) == 2048 * Transform(s, y) - Transform(r, y)
  {
  }

  lemma SampleRounds(b: seq<int>, y: nat, x: nat) returns (t: int)
    requires |b| == 64 && y < 8 && x < 8
    ensures Rounds(b, y, x, t) && Sample(b, y, x) == Clamp(t)
  {
    hide Transform, Coefficients, RowSum, DoubleSum;
    var s := Column(b, x);
    var r := seq(8, (v: nat) requires v < 8 => RowSum(b, v, x));
    var e := seq(8, (v: nat) requires v < 8 => 2048 * s[v] - r[v]);
    forall v: nat | v < 8
      ensures -1024 <= e[v] <= 1024
    {
      RowTransform(b, v, x);
      DescaleNear(RowSum(b, v, x), 1024);
    }
    ErrorsAddUp(y, e);
    Combined(y, s, r, e);
    DoubleIs(b, y, x, r);
    t := Descale(Transform(s, y) + 128 * 0x4_0000, 0x2_0000);
    DescaleNear(Transform(s, y) + 128 * 0x4_0000, 0x2_0000);
  }

  lemma DoubleIs(b: seq<int>, y: nat, x: nat, r: seq<int>)
    requires |b| == 64 && y < 8 && x < 8 && |r| == 8 && forall v: nat :: v < 8 ==> r[v] == RowSum(b, v, x)
    ensures Transform(r, y) == DoubleSum(b, y, x)
  {
    TransformCoefficients(r, y);
    hide Transform, Coefficients, RowSum;
  }

  lemma SamplesNear(b: seq<int>)
    requires |b| == 64
    ensures AllNear(b, Samples(b))
  {
    hide Sample, Rounds;
    forall y: nat, x: nat | y < 8 && x < 8
      ensures SampleNear(b, Samples(b), y, x)
    {
      assert (8 * y + x) / 8 == y && (8 * y + x) % 8 == x;
      var t := SampleRounds(b, y, x);
    }
  }

  /** A block with only a DC coefficient has one and the same sample everywhere. */
  lemma SampleOfDc(b: seq<int>, y: int, x: int)
    requires |b| == 64 && 0 <= y < 8 && 0 <= x < 8 && forall i :: 1 <= i < 64 ==> b[i] == 0
    ensures Sample(b, y, x) == Clamp((b[0] + 4) / 8 + 128)
  {
    hide Transform, ColPass;
    forall r | 0 <= r < 8
      ensures Column(b, x)[r] == if r == 0 then 4 * b[0] else 0
    {
      RowOfDc(Row(b, r), x);
    }
    ColOfDc(Column(b, x), y);
    assert (4 * b[0] + 128 * 32 + 16) / 32 == (b[0] + 4) / 8 + 128;
  }

  /** The rows that the column pass will read are those of the row pass. */
  ghost predicate RowsDone(temp: seq<int>, b: seq<int>, n: int)
    requires |temp| == |b| == 64 && n <= 8
  {
    forall r :: 0 <= r < n ==> Row(temp, r) == RowOut(Row(b, r))
  }

  /** The row pass over the whole block; rows that need no columns are not written. */
  method RowsPass(temp: array<int>, src: array<int>, so: nat, maxZag: int)
    requires temp != src && temp.Length == 64 && so + 64 <= src.Length && 2 <= maxZag <= 64
    requires ZeroFrom(src[so..so + 64], maxZag)
    modifies temp
    ensures RowsDone(temp[..], src[so..so + 64], ColTable(maxZag))
  {
    hide RowTable, ColTable, RowPass, RowOut, Access, ZeroFrom;
    ghost var b := src[so..so + 64];
    ghost var rows := ColTable(maxZag);
    var i := 0;
    while i < 8
      invariant 0 <= i <= 8
      invariant src[so..so + 64] == b
      invariant RowsDone(temp[..], b, if i < rows then i else rows)
    {
      var n := RowTable(maxZag)[i];
      ghost var before := temp[..];
      RowIdct(n, temp, 8 * i, src, so + 8 * i);
      SubRow(src[..], so, i);
      TableSuffices(b, maxZag, i);
      forall r | 0 <= r < i
        ensures Row(temp[..], r) == Row(before, r)
      {
      }
      assert Row(temp[..], i) == temp[8 * i..8 * i + 8];
      i := i + 1;
    }
  }

  lemma SubRow(s: seq<int>, so: nat, i: nat)
    requires so + 64 <= |s| && i < 8
    ensures s[so + 8 * i..so + 8 * i + 8] == Row(s[so..so + 64], i)
  {
    var a, b := s[so + 8 * i..so + 8 * i + 8], Row(s[so..so + 64], i);
    forall k | 0 <= k < 8
      ensures a[k] == b[k]
    {
      assert b[k] == s[so..so + 64][8 * i + k];
    }
  }

  /** The columns that the row table gives for a row are all it needs. */
  lemma TableSuffices(b: seq<int>, m: int, r: int)
    requires |b| == 64 && 2 <= m <= 64 && 0 <= r < 8 && ZeroFrom(b, m)
    ensures RowTable(m)[r] > 0 <==> r < ColTable(m)
    ensures Access(RowTable(m)[r], Row(b, r)) == Row(b, r)
  {
    hide RowTable, ColTable;
    ColTableCovers(m, r);
    forall c | RowTable(m)[r] <= c < 8
      ensures Row(b, r)[c] == 0
    {
      ZeroBeyondTable(b, m, r, c);
    }
    AccessAll(RowTable(m)[r], Row(b, r));
  }

  /** What the column pass reads of a column: the rows beyond the column table count as zero,
      which is what the row pass would have made of them. */
  lemma ColumnRead(temp: seq<int>, b: seq<int>, m: int, x: nat)
    requires |temp| == |b| == 64 && 2 <= m <= 64 && x < 8 && ZeroFrom(b, m)
    requires RowsDone(temp, b, ColTable(m))
    ensures Access(ColTable(m), Strided(temp, x)) == Column(b, x)
  {
    hide RowTable, ColTable, RowPass;
    forall r | 0 <= r < 8
      ensures Access(ColTable(m), Strided(temp, x))[r] == Column(b, x)[r]
    {
      StridedAt(temp, x, r);
      if r >= ColTable(m) {
        TableSuffices(b, m, r);
        RowOfDc(Row(b, r), x);
      } else {
        assert Row(temp, r)[x] == RowOut(Row(b, r))[x];
      }
    }
  }

  lemma StridedAt(t: seq<int>, x: nat, r: int)
    requires |t| == 64 && x < 8 && 0 <= r < 8
    ensures Strided(t, x)[r] == Row(t, r)[x]
  {
  }

  /** idct: the samples of a block whose coefficients from zig-zag position maxZag on are zero
      are those of the unpruned transform. */
  method Idct(src: array<int>, so: nat, dst: array<int>, at: nat, maxZag: int)
    requires src != dst && so + 64 <= src.Length && at + 64 <= dst.Length
    requires 1 <= maxZag <= 64 && ZeroFrom(src[so..so + 64], maxZag)
    modifies dst
    ensures dst[at..at + 64] == Samples(src[so..so + 64])
    ensures AllNear(src[so..so + 64], dst[at..at + 64])
    ensures forall j :: 0 <= j < dst.Length && !(at <= j < at + 64) ==> dst[j] == old(dst[j])
  {
    hide Sample, ColTable, RowPass, ColPass, AllNear;
    ghost var b := src[so..so + 64];
    SamplesNear(b);
    if maxZag <= 1 {
      var k := (src[so] + 4) / 8 + 128;
      k := Clamp(k);
      OnlyDc(b);
      forall i | 0 <= i < 64
        ensures Samples(b)[i] == k
      {
        SampleOfDc(b, i / 8, i % 8);
      }
      var i := 0;
      while i < 64
        invariant 0 <= i <= 64
        invariant forall j :: 0 <= j < dst.Length ==> dst[j] == if at <= j < at + i then k else old(dst[j])
      {
        dst[at + i] := k;
        i := i + 1;
      }
      return;
    }
    var temp := new int[64];
    RowsPass(temp, src, so, maxZag);
    var nonzeroRows := ColTable(maxZag);
    var x := 0;
    while x < 8
      invariant 0 <= x <= 8
      invariant src[so..so + 64] == b
      invariant RowsDone(temp[..], b, nonzeroRows)
      invariant forall j :: 0 <= j < dst.Length && !(at <= j < at + 64) ==> dst[j] == old(dst[j])
      invariant forall j :: at <= j < at + 64 && (j - at) % 8 < x ==> dst[j] == Sample(b, (j - at) / 8, (j - at) % 8)
    {
      ColIdct(nonzeroRows, dst, at, temp, x);
      ColumnRead(temp[..], b, maxZag, x);
      SampleIs(b, x);
      x := x + 1;
    }
  }

  lemma SampleIs(b: seq<int>, x: int)
    requires |b| == 64
    ensures forall y :: Sample(b, y, x) == ColPass(Column(b, x), y)
  {
  }

  lemma OnlyDc(b: seq<int>)
    requires |b| == 64 && ZeroFrom(b, 1)
    ensures forall i :: 1 <= i < 64 ==> b[i] == 0
  {
    hide Zag, Unzag;
    FirstRow();
    forall i | 1 <= i < 64
      ensures b[i] == 0
    {
      ZagUnzag(i);
    }
  }
}
